/**
 * The four execute methods of SpoofOuterProduct: the scalar one (sum of
 * the scalar kernel over the non-zeros of A, or the Cellwise value), its
 * parallel form (one ParOuterProdAggTask per row block, results added in
 * task order), the matrix-output one (argument check, early exit on an
 * empty operand, output allocation, one iterator over all of A, non-zero
 * count), and its parallel form (one ParExecTask per row or column block
 * writing into the shared output, per-task counts added up).
 */
module Executor {
  import opened Entries
  import opened Guides
  import opened Kernels
  import opened Outcomes
  import opened Blocking
  import opened Outputs
  import opened OutBlocks
  import opened Tasks
  import opened Parallel

  datatype Option<T> = None | Some(value: T)

  /** The input list is there and holds at least A, U and V. */
  predicate ValidInputs(inputs: Option<seq<MatrixInput>>)
  {
    inputs.Some? && |inputs.value| >= 3
  }

  /** What the callers guarantee of the inputs the executor reads: A is a
      well-formed block and U has a rank k >= 0 of columns. */
  predicate InputsFit(inputs: Option<seq<MatrixInput>>)
  {
    ValidInputs(inputs) ==> WellFormed(inputs.value[0]) && 0 <= inputs.value[1].cols
  }

  /* ---------------------------------------------------------------- */
  /* The scalar execute methods                                       */
  /* ---------------------------------------------------------------- */

  /** execute(inputs, scalars): the scalar iterator over all of A, with
      `(int) a.getNonZeros()` as the non-zero count, into a fresh 1x1
      block; a null or short input list is rejected. */
  method ExecuteScalar(inputs: Option<seq<MatrixInput>>, f: CellKernel, outType: OutProdType)
    returns (res: Result<real>)
    requires InputsFit(inputs)
    ensures !ValidInputs(inputs) ==> res == Err(InvalidArguments)
    ensures ValidInputs(inputs) ==>
      var a := inputs.value[0];
      res == ScalarResult(a, f, inputs.value[1].cols, ToInt32(a.nonZeros), outType, 0, a.rows, 0, a.cols)
  {
    if inputs.None? || |inputs.value| < 3 {
      return Err(InvalidArguments);
    }
    var a, k := inputs.value[0], inputs.value[1].cols;
    res := RunScalar(a, f, k, ToInt32(a.nonZeros), outType, 0, a.rows, 0, a.cols);
  }

  /** The scalar result outside Cellwise mode is the sum of the kernel over
      the visits of A, each counted once, in whatever order they are
      listed: the non-zero cells of a dense A, the stored entries of a
      sparse A. */
  lemma ScalarIsSumOverVisits(a: MatrixInput, f: CellKernel, k: int, nnz: int, outType: OutProdType, es: seq<Entry>)
    requires WellFormed(a) && outType != CellwiseOuterProduct
    requires CellSizes(a, nnz, 0, a.rows).Ok?
    requires NoDup(es) && forall e :: e in es <==> IsVisitOf(GuideOf(a), e)
    ensures ScalarResult(a, f, k, nnz, outType, 0, a.rows, 0, a.cols) == Ok(CellSum(es, f, k))
  {
    var sizes := CellSizes(a, nnz, 0, a.rows).value;
    var whole := CellVisits(a, 0, a.rows, 0, a.cols, sizes);
    if 0 < sizes.0 && 0 < sizes.1 {
      VisitsSpec(a, 0, a.rows, 0, a.cols, sizes);
    } else {
      // Only an empty row range can have a zero block size; it has no
      // visits.
      assert a.rows == 0 && whole == [];
    }
    SameMembersPermutation(whole, es);
    SumByPermutation(whole, es, CellValues(f, k));
  }

  /** The visits of one scalar task's slice [b.lo, b.hi) x [0, n). */
  function CellTrace(a: MatrixInput, nnz: int, b: Block): seq<Entry>
  {
    match CellSizes(a, nnz, b.lo, b.hi)
    case Err(_) => []
    case Ok(sizes) => CellVisits(a, b.lo, b.hi, 0, a.cols, sizes)
  }

  /** The traces of the scalar tasks, block by block. */
  function CellTraces(a: MatrixInput, nnz: int): Block -> seq<Entry>
  {
    b => CellTrace(a, nnz, b)
  }

  /** What one ParOuterProdAggTask returns for its block of rows. */
  function TaskResult(a: MatrixInput, f: CellKernel, k: int, nnz: int, outType: OutProdType, b: Block): Result<real>
  {
    ScalarResult(a, f, k, nnz, outType, b.lo, b.hi, 0, a.cols)
  }

  /** The results of the scalar tasks, block by block. */
  function TaskResults(a: MatrixInput, f: CellKernel, k: int, nnz: int, outType: OutProdType): Block -> Result<real>
  {
    b => TaskResult(a, f, k, nnz, outType, b)
  }

  /** `sum += task.get()`: a failure so far stays, a failed task fails the
      sum, otherwise the values add. */
  function AddResult(sum: Result<real>, r: Result<real>): Result<real>
  {
    if sum.Err? then sum else if r.Err? then r else Ok(sum.value + r.value)
  }

  /** The tasks' results added in task order. */
  function SumOver(blocks: seq<Block>, result: Block -> Result<real>): Result<real>
    decreases |blocks|
  {
    if blocks == [] then Ok(0.0)
    else AddResult(SumOver(blocks[..|blocks| - 1], result), result(blocks[|blocks| - 1]))
  }

  lemma SumOverSnoc(blocks: seq<Block>, result: Block -> Result<real>, t: int)
    requires 0 <= t < |blocks|
    ensures SumOver(blocks[..t + 1], result) == AddResult(SumOver(blocks[..t], result), result(blocks[t]))
  {
    assert blocks[..t + 1][..t] == blocks[..t];
  }

  /** Once a task has failed, the tasks after it do not change the
      outcome. */
  lemma {:induction false} SumOverErr(blocks: seq<Block>, result: Block -> Result<real>, t: int)
    requires 0 <= t <= |blocks| && SumOver(blocks[..t], result).Err?
    ensures SumOver(blocks, result) == SumOver(blocks[..t], result)
    decreases |blocks|
  {
    if t < |blocks| {
      var init := blocks[..|blocks| - 1];
      assert init[..t] == blocks[..t];
      SumOverErr(init, result, t);
    } else {
      assert blocks[..t] == blocks;
    }
  }

  /** When every task succeeds with the sum of the kernel over its own
      trace, the first t tasks add up to the sum over their traces
      together. */
  lemma {:induction false} SumOverPrefix(blocks: seq<Block>, result: Block -> Result<real>, trace: Block -> seq<Entry>,
                                         f: CellKernel, k: int, t: int)
    requires 0 <= t <= |blocks|
    requires forall b :: b in blocks ==> result(b) == Ok(CellSum(trace(b), f, k))
    ensures SumOver(blocks[..t], result) == Ok(CellSum(ConcatOver(blocks[..t], trace), f, k))
  {
    if t == 0 {
      assert blocks[..0] == [];
    } else {
      SumOverPrefix(blocks, result, trace, f, k, t - 1);
      ConcatOverPrefix(blocks, trace, t - 1);
      SumOverSnoc(blocks, result, t - 1);
      assert blocks[t - 1] in blocks;
      SumByConcat(ConcatOver(blocks[..t - 1], trace), trace(blocks[t - 1]), CellValues(f, k));
    }
  }

  /** The parallel scalar method computes what the sequential one computes
      over all of A, given the same non-zero count: outside Cellwise mode,
      splitting A's rows among P >= 1 tasks and adding their sums gives the
      sum over all of A, and a failing block size fails every task alike. */
  lemma ParallelScalarSum(a: MatrixInput, f: CellKernel, k: int, nnz: int, outType: OutProdType, p: int)
    requires WellFormed(a) && 0 < a.rows && 1 <= p && outType != CellwiseOuterProduct
    ensures SumOver(PartitionBlocks(a.rows, p), TaskResults(a, f, k, nnz, outType)) ==
            ScalarResult(a, f, k, nnz, outType, 0, a.rows, 0, a.cols)
  {
    var blocks := PartitionBlocks(a.rows, p);
    var result := TaskResults(a, f, k, nnz, outType);
    PartitionSpec(a.rows, p);
    PartitionCovers(a.rows, p);
    if CellSizes(a, nnz, 0, a.rows).Err? {
      assert blocks[0] in blocks;
      TaskFailsLikeWhole(a, f, k, nnz, outType, blocks[0]);
      SumOverSnoc(blocks, result, 0);
      assert blocks[..0] == [];
      SumOverErr(blocks, result, 1);
    } else {
      var tr := CellTraces(a, nnz);
      forall b | b in blocks
        ensures NoDup(tr(b))
        ensures forall e :: e in tr(b) <==> b.lo <= Coord(e, false) < b.hi && IsVisitOf(GuideOf(a), e)
        ensures result(b) == Ok(CellSum(tr(b), f, k))
      {
        TaskSumsItsSlice(a, f, k, nnz, outType, b);
      }
      PartitionedTraces(GuideOf(a), a.rows, p, false, tr);
      SumOverPrefix(blocks, result, tr, f, k, |blocks|);
      assert blocks[..|blocks|] == blocks;
      ScalarIsSumOverVisits(a, f, k, nnz, outType, ConcatOver(blocks, tr));
    }
  }

  /** A task over a non-empty slice gets the block size of the whole
      range; when that fails, that task fails the same way. */
  lemma TaskFailsLikeWhole(a: MatrixInput, f: CellKernel, k: int, nnz: int, outType: OutProdType, b: Block)
    requires 0 < a.rows && b.lo < b.hi && CellSizes(a, nnz, 0, a.rows).Err?
    ensures TaskResults(a, f, k, nnz, outType)(b) == Err(CellSizes(a, nnz, 0, a.rows).why)
  {
    assert CellSizes(a, nnz, b.lo, b.hi) == CellSizes(a, nnz, 0, a.rows);
  }

  /** Outside Cellwise mode a task over a non-empty slice of rows visits
      each visit of A in those rows once, and returns the sum of the kernel
      over them. */
  lemma TaskSumsItsSlice(a: MatrixInput, f: CellKernel, k: int, nnz: int, outType: OutProdType, b: Block)
    requires WellFormed(a) && 0 < a.rows && 0 <= b.lo < b.hi <= a.rows && outType != CellwiseOuterProduct
    requires CellSizes(a, nnz, 0, a.rows).Ok?
    ensures NoDup(CellTraces(a, nnz)(b))
    ensures forall e :: e in CellTraces(a, nnz)(b) <==> b.lo <= e.row < b.hi && IsVisitOf(GuideOf(a), e)
    ensures TaskResults(a, f, k, nnz, outType)(b) == Ok(CellSum(CellTraces(a, nnz)(b), f, k))
  {
    var sizes := CellSizes(a, nnz, 0, a.rows).value;
    assert CellSizes(a, nnz, b.lo, b.hi) == Ok(sizes);
    VisitsSpec(a, b.lo, b.hi, 0, a.cols, sizes);
  }

  /** execute(inputs, scalars, numThreads): a pool of k threads (the rank,
      not numThreads), one ParOuterProdAggTask per block of A's rows, run
      with the raw long non-zero count, and their values added in task
      order; the first failed task's failure is the outcome. */
  method ExecuteScalarParallel(inputs: Option<seq<MatrixInput>>, f: CellKernel, outType: OutProdType, numThreads: int)
    returns (res: Result<real>)
    requires InputsFit(inputs)
    ensures !ValidInputs(inputs) ==> res == Err(InvalidArguments)
    ensures ValidInputs(inputs) && inputs.value[1].cols < 1 ==> res == Err(IllegalPoolSize)
    ensures ValidInputs(inputs) && 1 <= inputs.value[1].cols ==>
      var a := inputs.value[0];
      res == SumOver(PartitionBlocks(a.rows, numThreads), TaskResults(a, f, inputs.value[1].cols, a.nonZeros, outType))
  {
    if inputs.None? || |inputs.value| < 3 {
      return Err(InvalidArguments);
    }
    var a, k := inputs.value[0], inputs.value[1].cols;
    if k < 1 {
      return Err(IllegalPoolSize);
    }
    var blocks := Partition(a.rows, numThreads);
    if 1 <= numThreads {
      PartitionCovers(a.rows, numThreads);
    }
    var results := RunScalarTasks(a, f, k, a.nonZeros, outType, blocks);
    res := AddUp(blocks, results, TaskResults(a, f, k, a.nonZeros, outType));
  }

  /** invokeAll over the scalar tasks: each task's result, in task order. */
  method RunScalarTasks(a: MatrixInput, f: CellKernel, k: int, nnz: int, outType: OutProdType, blocks: seq<Block>)
    returns (results: seq<Result<real>>)
    requires WellFormed(a) && 0 <= k
    requires forall b :: b in blocks ==> 0 <= b.lo && b.hi <= a.rows
    ensures |results| == |blocks|
    ensures forall s :: 0 <= s < |blocks| ==> results[s] == TaskResults(a, f, k, nnz, outType)(blocks[s])
  {
    results := [];
    var t := 0;
    while t < |blocks|
      invariant 0 <= t <= |blocks| && |results| == t
      invariant forall s :: 0 <= s < t ==> results[s] == TaskResults(a, f, k, nnz, outType)(blocks[s])
    {
      assert blocks[t] in blocks;
      var r := RunScalar(a, f, k, nnz, outType, blocks[t].lo, blocks[t].hi, 0, a.cols);
      results := results + [r];
      t := t + 1;
    }
  }

  /** `for (Future task : taskret) sum += task.get()`: the tasks' values
      added in task order; the first failure ends the loop. */
  method AddUp(blocks: seq<Block>, results: seq<Result<real>>, result: Block -> Result<real>) returns (res: Result<real>)
    requires |results| == |blocks|
    requires forall s :: 0 <= s < |blocks| ==> results[s] == result(blocks[s])
    ensures res == SumOver(blocks, result)
  {
    var sum := 0.0;
    var t := 0;
    while t < |blocks|
      invariant 0 <= t <= |blocks|
      invariant SumOver(blocks[..t], result) == Ok(sum)
    {
      SumOverSnoc(blocks, result, t);
      if results[t].Err? {
        SumOverErr(blocks, result, t + 1);
        return Err(results[t].why);
      }
      sum := sum + results[t].value;
      t := t + 1;
    }
    assert blocks[..t] == blocks;
    return Ok(sum);
  }

  /* ---------------------------------------------------------------- */
  /* The matrix-output execute methods                                */
  /* ---------------------------------------------------------------- */

  /** A freshly allocated output of len cells: zeros, no appends. */
  function Fresh(len: nat): Contents
  {
    Contents(seq(len, _ => 0.0), [])
  }

  /** The output holds want in the storage its format uses: the appends in
      sparse format, the dense buffer otherwise. */
  ghost predicate Holds(st: Contents, want: Contents, sparse: bool)
  {
    if sparse then st.appended == want.appended else st.dense == want.dense
  }

  /** The early exit: Left with an empty U, Right with an empty V,
      Cellwise with an empty A. */
  predicate EmptyResult(inputs: seq<MatrixInput>, outType: OutProdType)
    requires |inputs| >= 3
  {
    (outType == LeftOuterProduct && IsEmptyBlock(inputs[1])) ||
    (outType == RightOuterProduct && IsEmptyBlock(inputs[2])) ||
    (outType == CellwiseOuterProduct && IsEmptyBlock(inputs[0]))
  }

  /** The arguments pass the check and no operand is empty: the output is
      allocated and the iteration runs. */
  predicate Proceeds(inputs: Option<seq<MatrixInput>>, hasOut: bool, outType: OutProdType)
  {
    ValidInputs(inputs) && hasOut && !EmptyResult(inputs.value, outType)
  }

  /** reset and allocation of the output: n x k (Left), m x k (Right) in
      dense format; A's shape and format in Cellwise mode; in the
      aggregate mode the output keeps its shape and only gets a dense
      buffer. Every cell is zero and no non-zero is recorded. */
  method Allocate(out: OutBlock, a: MatrixInput, k: int, outType: OutProdType)
    requires WellFormed(a) && 0 <= k && 0 <= out.rows && 0 <= out.cols
    modifies out
    ensures outType == LeftOuterProduct ==> out.rows == a.cols && out.cols == k
    ensures outType == RightOuterProduct ==> out.rows == a.rows && out.cols == k
    ensures outType == CellwiseOuterProduct ==> out.rows == a.rows && out.cols == a.cols
    ensures outType == AggOuterProduct ==> out.rows == old(out.rows) && out.cols == old(out.cols)
    ensures out.sparse == (outType == CellwiseOuterProduct && a.sparse)
    ensures out.nonZeros == 0 && 0 <= out.rows && 0 <= out.cols
    ensures !out.sparse ==> out.dense.Length == out.rows * out.cols
    ensures Holds(out.State(), Fresh(out.rows * out.cols), out.sparse)
    ensures out.dense == old(out.dense) || fresh(out.dense)
    ensures out.sparseBlock == old(out.sparseBlock) || fresh(out.sparseBlock)
  {
    if outType == CellwiseOuterProduct {
      out.Reset(a.rows, a.cols, a.sparse);
      out.AllocateDenseOrSparseBlock();
    } else {
      if outType == LeftOuterProduct {
        out.Reset(a.cols, k, out.sparse);
      } else if outType == RightOuterProduct {
        out.Reset(a.rows, k, out.sparse);
      }
      out.AllocateDenseBlock();
    }
    if !out.sparse {
      assert out.dense[..] == Fresh(out.rows * out.cols).dense;
    }
  }

  /** execute(inputs, scalars, out): check the arguments, return at once
      when the operand the mode depends on is empty, allocate the output,
      run the iterator over all of A (the aggregate mode fails here), and
      recount the output's non-zeros. */
  method ExecuteMatrix(inputs: Option<seq<MatrixInput>>, vk: VectorKernel, f: CellKernel, out: OutBlock?,
                       outType: OutProdType) returns (res: Result<()>)
    requires InputsFit(inputs)
    requires out != null ==> 0 <= out.rows && 0 <= out.cols
    modifies out
    modifies if out == null then {} else {out.dense}
    modifies if out == null then {} else {out.sparseBlock}
    ensures !ValidInputs(inputs) || out == null ==> res == Err(InvalidArguments)
    ensures ValidInputs(inputs) && out != null && EmptyResult(inputs.value, outType) ==>
      res == Ok(()) && unchanged(out) && unchanged(out.dense) && unchanged(out.sparseBlock)
    ensures Proceeds(inputs, out != null, outType) && outType == AggOuterProduct ==> res == Err(WrongCodepath)
    ensures Proceeds(inputs, out != null, outType) && outType != AggOuterProduct ==>
      var a, k := inputs.value[0], inputs.value[1].cols;
      var sizes := ExecSizes(a, k, outType, 0, a.rows);
      (sizes.Err? ==> res == Err(sizes.why)) &&
      (sizes.Ok? ==>
        res == Ok(()) &&
        out.rows == SplitLen(a, outType) && out.cols == OutCols(a, k, outType) &&
        out.sparse == (outType == CellwiseOuterProduct && a.sparse) &&
        0 <= out.rows * out.cols &&
        Holds(out.State(),
              Emit(Fresh(out.rows * out.cols), ExecVisits(a, outType, 0, a.rows, 0, a.cols, sizes.value),
                   outType, out.sparse, vk, f, k),
              out.sparse) &&
        out.nonZeros == NonZerosIn(out.State(), out.sparse, out.cols, 0, out.rows))
  {
    if inputs.None? || |inputs.value| < 3 || out == null {
      return Err(InvalidArguments);
    }
    if EmptyResult(inputs.value, outType) {
      return Ok(());
    }
    var a, k := inputs.value[0], inputs.value[1].cols;
    Allocate(out, a, k, outType);
    MulNonNegative(out.rows, out.cols);
    res := RunIterator(a, vk, f, out, k, outType, 0, a.rows, 0, a.cols);
    if res.Err? {
      return;
    }
    out.RecomputeNonZeros();
  }

  /** The length of the dimension the parallel method splits: A's columns
      in Left mode, its rows otherwise. */
  function SplitLen(a: MatrixInput, outType: OutProdType): int
  {
    if outType == LeftOuterProduct then a.cols else a.rows
  }

  /** The slice (rl, ru, cl, cu) of the ParExecTask for block b: all rows
      and the columns of b in Left mode, the rows of b and all columns
      otherwise. */
  function TaskSlice(a: MatrixInput, outType: OutProdType, b: Block): (int, int, int, int)
  {
    if outType == LeftOuterProduct then (0, a.rows, b.lo, b.hi) else (b.lo, b.hi, 0, a.cols)
  }

  /** The visits of the ParExecTask for block b: none when its block sizes
      fail. */
  function ExecTrace(a: MatrixInput, k: int, outType: OutProdType, b: Block): seq<Entry>
  {
    var sl := TaskSlice(a, outType, b);
    match ExecSizes(a, k, outType, sl.0, sl.1)
    case Err(_) => []
    case Ok(sizes) => ExecVisits(a, outType, sl.0, sl.1, sl.2, sl.3, sizes)
  }

  function ExecTraces(a: MatrixInput, k: int, outType: OutProdType): Block -> seq<Entry>
  {
    b => ExecTrace(a, k, outType, b)
  }

  /** How the ParExecTask for block b ends, its count aside: the aggregate
      mode fails, so does a failing block size. */
  function TaskOutcome(a: MatrixInput, k: int, outType: OutProdType, b: Block): Result<()>
  {
    var sl := TaskSlice(a, outType, b);
    if outType == AggOuterProduct then Err(WrongCodepath)
    else match ExecSizes(a, k, outType, sl.0, sl.1)
      case Err(why) => Err(why)
      case Ok(_) => Ok(())
  }

  function TaskOutcomes(a: MatrixInput, k: int, outType: OutProdType): Block -> Result<()>
  {
    b => TaskOutcome(a, k, outType, b)
  }

  /** The first failure among the tasks, in task order. */
  function FirstFailure(blocks: seq<Block>, outcome: Block -> Result<()>): Result<()>
    decreases |blocks|
  {
    if blocks == [] then Ok(())
    else
      var before := FirstFailure(blocks[..|blocks| - 1], outcome);
      if before.Err? then before else outcome(blocks[|blocks| - 1])
  }

  lemma FirstFailureSnoc(blocks: seq<Block>, outcome: Block -> Result<()>, t: int)
    requires 0 <= t < |blocks|
    ensures FirstFailure(blocks[..t + 1], outcome) ==
      (if FirstFailure(blocks[..t], outcome).Err? then FirstFailure(blocks[..t], outcome) else outcome(blocks[t]))
  {
    assert blocks[..t + 1][..t] == blocks[..t];
  }

  lemma {:induction false} FirstFailureErr(blocks: seq<Block>, outcome: Block -> Result<()>, t: int)
    requires 0 <= t <= |blocks| && FirstFailure(blocks[..t], outcome).Err?
    ensures FirstFailure(blocks, outcome) == FirstFailure(blocks[..t], outcome)
    decreases |blocks|
  {
    if t < |blocks| {
      var init := blocks[..|blocks| - 1];
      assert init[..t] == blocks[..t];
      FirstFailureErr(init, outcome, t);
    } else {
      assert blocks[..t] == blocks;
    }
  }

  /** A task's result reports its outcome: the same failure, or a count. */
  predicate Reports(r: Result<int>, o: Result<()>)
  {
    r.Err? == o.Err? && (r.Err? ==> r.why == o.why)
  }

  /** The visits of a task lie in its block of the split dimension and are
      visits of A; when its block sizes are positive it visits each of those
      exactly once. */
  lemma ExecTraceSpec(a: MatrixInput, k: int, outType: OutProdType, b: Block)
    requires WellFormed(a) && 0 <= b.lo && b.hi <= SplitLen(a, outType)
    ensures forall e :: e in ExecTrace(a, k, outType, b) ==>
      b.lo <= Coord(e, outType == LeftOuterProduct) < b.hi && IsVisitOf(GuideOf(a), e)
    ensures var sl := TaskSlice(a, outType, b);
      ExecSizes(a, k, outType, sl.0, sl.1).Ok? && 0 < ExecSizes(a, k, outType, sl.0, sl.1).value.0 &&
      0 < ExecSizes(a, k, outType, sl.0, sl.1).value.1 ==>
      NoDup(ExecTrace(a, k, outType, b)) &&
      forall e :: b.lo <= Coord(e, outType == LeftOuterProduct) < b.hi && IsVisitOf(GuideOf(a), e) ==>
        e in ExecTrace(a, k, outType, b)
  {
    var sl := TaskSlice(a, outType, b);
    var sizes := ExecSizes(a, k, outType, sl.0, sl.1);
    if sizes.Ok? && 0 < sizes.value.0 && 0 < sizes.value.1 {
      VisitsSpec(a, sl.0, sl.1, sl.2, sl.3, sizes.value);
    }
  }

  /** Distinct visits of a dense A have distinct storage positions. */
  lemma DensePositionsDistinct(a: MatrixInput, es: seq<Entry>)
    requires !a.sparse && forall e :: e in es ==> IsVisit(GuideOf(a), e)
    ensures forall x, y :: x in es && y in es && x.pos == y.pos ==> x == y
  {
    forall x, y | x in es && y in es && x.pos == y.pos ensures x == y {
      CellPositionInjective(x.row, x.col, y.row, y.col, a.cols);
    }
  }

  /** The ParExecTask for block t writes only output rows from its block on, so
      the counts of the earlier, lower blocks stay as they were. */
  lemma EarlierCountsKept(a: MatrixInput, k: int, outType: OutProdType, vk: VectorKernel, f: CellKernel,
                          st: Contents, sparse: bool, rows: int, cols: int, blocks: seq<Block>, t: int)
    requires WellFormed(a) && 0 <= k && outType != AggOuterProduct
    requires rows == SplitLen(a, outType) && cols == (if outType == CellwiseOuterProduct then a.cols else k)
    requires sparse == (outType == CellwiseOuterProduct && a.sparse)
    requires !sparse ==> |st.dense| == rows * cols
    requires 0 <= t < |blocks|
    requires forall s :: 0 <= s <= t ==> 0 <= blocks[s].lo <= blocks[s].hi <= rows
    requires forall s :: 0 <= s < t ==> blocks[s].hi <= blocks[t].lo
    ensures forall s :: 0 <= s < t ==>
      NonZerosIn(Emit(st, ExecTrace(a, k, outType, blocks[t]), outType, sparse, vk, f, k), sparse, cols, blocks[s].lo, blocks[s].hi) ==
      NonZerosIn(st, sparse, cols, blocks[s].lo, blocks[s].hi)
  {
    var b := blocks[t];
    var es := ExecTrace(a, k, outType, b);
    ExecTraceSpec(a, k, outType, b);
    MulMonotone(b.lo, rows, cols);
    if outType == CellwiseOuterProduct && !sparse {
      forall e | e in es ensures e.pos == e.row * cols + e.col && 0 <= e.col { }
    }
    forall s | 0 <= s < t
      ensures NonZerosIn(Emit(st, es, outType, sparse, vk, f, k), sparse, cols, blocks[s].lo, blocks[s].hi) ==
              NonZerosIn(st, sparse, cols, blocks[s].lo, blocks[s].hi)
    {
      EmitKeepsCountsBelow(st, es, outType, sparse, vk, f, k, cols, b.lo, blocks[s].lo, blocks[s].hi);
    }
  }

  /** The output's columns in a matrix-output mode: A's columns in
      Cellwise mode, the rank k otherwise. */
  function OutCols(a: MatrixInput, k: int, outType: OutProdType): int
  {
    if outType == CellwiseOuterProduct then a.cols else k
  }

  /** invokeAll over the ParExecTasks of a split, run one after another:
      each writes the visits of its slice into the shared output and
      reports its outcome and the non-zeros of its output rows. */
  method RunExecTasks(a: MatrixInput, vk: VectorKernel, f: CellKernel, out: OutBlock, k: int,
                      outType: OutProdType, blocks: seq<Block>) returns (results: seq<Result<int>>)
    requires WellFormed(a) && 0 <= k
    requires OutputFits(a, k, outType, out.sparse, out.dense.Length)
    requires outType != AggOuterProduct ==>
      out.rows == SplitLen(a, outType) && out.cols == OutCols(a, k, outType) &&
      out.sparse == (outType == CellwiseOuterProduct && a.sparse) &&
      (!out.sparse ==> out.dense.Length == out.rows * out.cols)
    requires forall s :: 0 <= s < |blocks| ==> 0 <= blocks[s].lo <= blocks[s].hi <= SplitLen(a, outType)
    requires forall s, t :: 0 <= s < t < |blocks| ==> blocks[s].hi <= blocks[t].lo
    modifies out.dense, out.sparseBlock
    ensures |results| == |blocks|
    ensures out.State() == Emit(old(out.State()), ConcatOver(blocks, ExecTraces(a, k, outType)), outType, out.sparse, vk, f, k)
    ensures ReportsAll(blocks, results, TaskOutcomes(a, k, outType))
    ensures outType != AggOuterProduct ==> CountsMatch(out.State(), out.sparse, out.cols, blocks, results)
  {
    results := [];
    var tr := ExecTraces(a, k, outType);
    ghost var st0 := out.State();
    var t := 0;
    while t < |blocks|
      invariant 0 <= t <= |blocks| && |results| == t
      invariant out.State() == EmitOver(st0, blocks, tr, t, outType, out.sparse, vk, f, k)
      invariant ReportsAll(blocks, results, TaskOutcomes(a, k, outType))
      invariant outType != AggOuterProduct ==> CountsMatch(out.State(), out.sparse, out.cols, blocks, results)
    {
      ghost var before := out.State();
      var r := RunExecTask(a, vk, f, out, k, outType, blocks, t);
      TaskStep(a, k, outType, vk, f, out.sparse, out.cols, st0, before, out.State(), blocks, results, r);
      results := results + [r];
      t := t + 1;
    }
    EmitOverConcat(st0, blocks, tr, t, outType, out.sparse, vk, f, k);
    assert blocks[..t] == blocks;
  }

  /** One more task keeps what the loop over the tasks maintains. */
  lemma TaskStep(a: MatrixInput, k: int, outType: OutProdType, vk: VectorKernel, f: CellKernel, sparse: bool, cols: int,
                 st0: Contents, before: Contents, after: Contents, blocks: seq<Block>, results: seq<Result<int>>, r: Result<int>)
    requires |results| < |blocks|
    requires before == EmitOver(st0, blocks, ExecTraces(a, k, outType), |results|, outType, sparse, vk, f, k)
    requires after == Emit(before, ExecTraces(a, k, outType)(blocks[|results|]), outType, sparse, vk, f, k)
    requires ReportsAll(blocks, results, TaskOutcomes(a, k, outType))
    requires Reports(r, TaskOutcomes(a, k, outType)(blocks[|results|]))
    requires outType != AggOuterProduct ==>
      CountsMatch(before, sparse, cols, blocks, results) &&
      (r.Ok? ==> r.value == NonZerosIn(after, sparse, cols, blocks[|results|].lo, blocks[|results|].hi)) &&
      forall s :: 0 <= s < |results| ==>
        NonZerosIn(after, sparse, cols, blocks[s].lo, blocks[s].hi) == NonZerosIn(before, sparse, cols, blocks[s].lo, blocks[s].hi)
    ensures after == EmitOver(st0, blocks, ExecTraces(a, k, outType), |results| + 1, outType, sparse, vk, f, k)
    ensures ReportsAll(blocks, results + [r], TaskOutcomes(a, k, outType))
    ensures outType != AggOuterProduct ==> CountsMatch(after, sparse, cols, blocks, results + [r])
  {
    var t := |results|;
    assert (results + [r])[..t] == results;
    if outType != AggOuterProduct {
      CountsStep(before, after, sparse, cols, blocks, results + [r], t);
    }
  }

  /** The output after the first t tasks of a split, task by task. */
  ghost function EmitOver(st: Contents, blocks: seq<Block>, trace: Block -> seq<Entry>, t: int, outType: OutProdType,
                          toSparse: bool, vk: VectorKernel, f: CellKernel, k: int): Contents
    requires 0 <= t <= |blocks|
    decreases t
  {
    if t == 0 then st
    else Emit(EmitOver(st, blocks, trace, t - 1, outType, toSparse, vk, f, k), trace(blocks[t - 1]), outType, toSparse, vk, f, k)
  }

  /** Task by task, the output is that of the tasks' traces one after
      another. */
  lemma {:induction false} EmitOverConcat(st: Contents, blocks: seq<Block>, trace: Block -> seq<Entry>, t: int,
                                          outType: OutProdType, toSparse: bool, vk: VectorKernel, f: CellKernel, k: int)
    requires 0 <= t <= |blocks|
    ensures EmitOver(st, blocks, trace, t, outType, toSparse, vk, f, k) ==
      Emit(st, ConcatOver(blocks[..t], trace), outType, toSparse, vk, f, k)
    decreases t
  {
    if t == 0 {
      assert blocks[..0] == [];
      EmitConcat(st, [], [], outType, toSparse, vk, f, k);
    } else {
      EmitOverConcat(st, blocks, trace, t - 1, outType, toSparse, vk, f, k);
      EmitConcat(st, ConcatOver(blocks[..t - 1], trace), trace(blocks[t - 1]), outType, toSparse, vk, f, k);
      ConcatOverPrefix(blocks, trace, t - 1);
    }
  }

  /** Each task's result reports its outcome. */
  ghost predicate ReportsAll(blocks: seq<Block>, results: seq<Result<int>>, outcome: Block -> Result<()>)
    requires |results| <= |blocks|
    decreases |results|
  {
    results == [] ||
    (ReportsAll(blocks, results[..|results| - 1], outcome) &&
     Reports(results[|results| - 1], outcome(blocks[|results| - 1])))
  }

  lemma {:induction false} ReportsAllEach(blocks: seq<Block>, results: seq<Result<int>>, outcome: Block -> Result<()>)
    requires |results| <= |blocks| && ReportsAll(blocks, results, outcome)
    ensures forall s :: 0 <= s < |results| ==> Reports(results[s], outcome(blocks[s]))
    decreases |results|
  {
    if results != [] {
      var init := results[..|results| - 1];
      ReportsAllEach(blocks, init, outcome);
      assert forall s :: 0 <= s < |init| ==> init[s] == results[s];
    }
  }

  /** Each successful task's count is the number of non-zeros of its rows
      in st. */
  ghost predicate CountsMatch(st: Contents, sparse: bool, cols: int, blocks: seq<Block>, results: seq<Result<int>>)
    requires |results| <= |blocks|
    decreases |results|
  {
    results == [] ||
    (CountsMatch(st, sparse, cols, blocks, results[..|results| - 1]) &&
     var r, b := results[|results| - 1], blocks[|results| - 1];
     (r.Ok? ==> r.value == NonZerosIn(st, sparse, cols, b.lo, b.hi)))
  }

  lemma {:induction false} CountsMatchAll(st: Contents, sparse: bool, cols: int, blocks: seq<Block>, results: seq<Result<int>>)
    requires |results| <= |blocks| && CountsMatch(st, sparse, cols, blocks, results)
    ensures forall s :: 0 <= s < |results| && results[s].Ok? ==>
      results[s].value == NonZerosIn(st, sparse, cols, blocks[s].lo, blocks[s].hi)
    decreases |results|
  {
    if results != [] {
      var init := results[..|results| - 1];
      CountsMatchAll(st, sparse, cols, blocks, init);
      assert forall s :: 0 <= s < |init| ==> init[s] == results[s];
    }
  }

  /** The counts reported so far still describe the output once one more
      task has run and left the earlier tasks' rows as they were. */
  lemma {:induction false} CountsStep(before: Contents, after: Contents, sparse: bool, cols: int, blocks: seq<Block>,
                                      results: seq<Result<int>>, t: int)
    requires 0 <= t <= |results| <= |blocks| && CountsMatch(before, sparse, cols, blocks, results[..t])
    requires forall s :: 0 <= s < t ==>
      NonZerosIn(after, sparse, cols, blocks[s].lo, blocks[s].hi) == NonZerosIn(before, sparse, cols, blocks[s].lo, blocks[s].hi)
    ensures CountsMatch(after, sparse, cols, blocks, results[..t])
    decreases t
  {
    if t > 0 {
      assert results[..t][..t - 1] == results[..t - 1];
      CountsStep(before, after, sparse, cols, blocks, results, t - 1);
    }
  }

  /** The t-th ParExecTask of a split: its slice of A, its effect on the
      shared output, and the non-zero counts of the earlier tasks' rows,
      which it leaves as they were. */
  method RunExecTask(a: MatrixInput, vk: VectorKernel, f: CellKernel, out: OutBlock, k: int,
                     outType: OutProdType, blocks: seq<Block>, t: int) returns (r: Result<int>)
    requires WellFormed(a) && 0 <= k
    requires OutputFits(a, k, outType, out.sparse, out.dense.Length)
    requires outType != AggOuterProduct ==>
      out.rows == SplitLen(a, outType) && out.cols == OutCols(a, k, outType) &&
      out.sparse == (outType == CellwiseOuterProduct && a.sparse) &&
      (!out.sparse ==> out.dense.Length == out.rows * out.cols)
    requires 0 <= t < |blocks|
    requires forall s :: 0 <= s <= t ==> 0 <= blocks[s].lo <= blocks[s].hi <= SplitLen(a, outType)
    requires forall s :: 0 <= s < t ==> blocks[s].hi <= blocks[t].lo
    modifies out.dense, out.sparseBlock
    ensures out.State() == Emit(old(out.State()), ExecTraces(a, k, outType)(blocks[t]), outType, out.sparse, vk, f, k)
    ensures Reports(r, TaskOutcomes(a, k, outType)(blocks[t]))
    ensures outType != AggOuterProduct && r.Ok? ==>
      r.value == NonZerosIn(out.State(), out.sparse, out.cols, blocks[t].lo, blocks[t].hi)
    ensures outType != AggOuterProduct ==> forall s :: 0 <= s < t ==>
      NonZerosIn(out.State(), out.sparse, out.cols, blocks[s].lo, blocks[s].hi) ==
      NonZerosIn(old(out.State()), out.sparse, out.cols, blocks[s].lo, blocks[s].hi)
  {
    var b := blocks[t];
    var sl := TaskSlice(a, outType, b);
    ghost var before := out.State();
    r := ExecTask(a, vk, f, out, k, outType, sl.0, sl.1, sl.2, sl.3);
    TaskEmits(a, k, outType, b, before, out.State(), out.sparse, vk, f, r);
    if outType != AggOuterProduct {
      EarlierCountsKept(a, k, outType, vk, f, before, out.sparse, out.rows, out.cols, blocks, t);
    }
  }

  /** What ExecTask promises, in terms of that task's trace and outcome. */
  lemma TaskEmits(a: MatrixInput, k: int, outType: OutProdType, b: Block, before: Contents, after: Contents,
                  sparse: bool, vk: VectorKernel, f: CellKernel, r: Result<int>)
    requires var sl := TaskSlice(a, outType, b);
      var sizes := ExecSizes(a, k, outType, sl.0, sl.1);
      (outType == AggOuterProduct ==> r == Err(WrongCodepath) && after == before) &&
      (outType != AggOuterProduct && sizes.Err? ==> r == Err(sizes.why) && after == before) &&
      (outType != AggOuterProduct && sizes.Ok? ==>
        (r.Ok? && after == Emit(before, ExecVisits(a, outType, sl.0, sl.1, sl.2, sl.3, sizes.value), outType, sparse, vk, f, k)))
    ensures after == Emit(before, ExecTraces(a, k, outType)(b), outType, sparse, vk, f, k)
    ensures Reports(r, TaskOutcomes(a, k, outType)(b))
  {
  }

  /** The blocks cover [0, len) one after another, without gaps. */
  ghost predicate Tiles(blocks: seq<Block>, len: int)
  {
    (blocks == [] ==> len == 0) &&
    (blocks != [] ==> blocks[0].lo == 0 && blocks[|blocks| - 1].hi == len) &&
    (forall t :: 0 <= t < |blocks| ==> blocks[t].lo <= blocks[t].hi) &&
    (forall t :: 0 < t < |blocks| ==> blocks[t - 1].hi == blocks[t].lo)
  }

  lemma PartitionTiles(len: int, p: int)
    requires 0 <= len && 1 <= p
    ensures Tiles(PartitionBlocks(len, p), len)
  {
    PartitionSpec(len, p);
  }

  /** `out.setNonZeros(out.getNonZeros() + task.get())` over the tasks in
      order, the running total kept in a local; the first failure ends the
      loop with the counts of the tasks before it added. The counts are those of the
      output's contents st, which this loop does not change. */
  method AddCounts(out: OutBlock, ghost st: Contents, results: seq<Result<int>>, blocks: seq<Block>,
                   outcome: Block -> Result<()>, len: int) returns (res: Result<()>)
    requires Tiles(blocks, len) && 0 <= out.cols
    requires |results| == |blocks|
    requires forall s :: 0 <= s < |blocks| ==> Reports(results[s], outcome(blocks[s]))
    requires forall s :: 0 <= s < |blocks| && results[s].Ok? ==>
      results[s].value == NonZerosIn(st, out.sparse, out.cols, blocks[s].lo, blocks[s].hi)
    modifies out
    ensures res == FirstFailure(blocks, outcome)
    ensures res.Ok? ==> out.nonZeros == old(out.nonZeros) + NonZerosIn(st, out.sparse, out.cols, 0, len)
    ensures out.rows == old(out.rows) && out.cols == old(out.cols) && out.sparse == old(out.sparse)
    ensures out.dense == old(out.dense) && out.sparseBlock == old(out.sparseBlock)
  {
    var sparse, cols := out.sparse, out.cols;
    var sum, t := 0, 0;
    while t < |blocks| && results[t].Ok?
      invariant 0 <= t <= |blocks|
      invariant forall s :: 0 <= s < t ==> results[s].Ok?
      invariant sum == OkTotal(results[..t])
    {
      assert results[..t + 1][..t] == results[..t];
      sum := sum + results[t].value;
      t := t + 1;
    }
    CountsAddUp(st, sparse, cols, blocks, results, len, t);
    out.nonZeros := out.nonZeros + sum;
    FirstFailureAt(blocks, outcome, results, t);
    if t < |blocks| {
      return Err(results[t].why);
    }
    return Ok(());
  }

  /** The sum of the counts the successful tasks report. */
  function OkTotal(results: seq<Result<int>>): int
  {
    if results == [] then 0
    else
      var r := results[|results| - 1];
      OkTotal(results[..|results| - 1]) + (if r.Ok? then r.value else 0)
  }

  /** The counts of the first t tasks add up to the count of the rows they
      cover together. */
  lemma {:induction false} CountsAddUp(st: Contents, sparse: bool, cols: int, blocks: seq<Block>,
                                       results: seq<Result<int>>, len: int, t: int)
    requires Tiles(blocks, len) && 0 <= cols && |results| == |blocks| && 0 <= t <= |blocks|
    requires forall s :: 0 <= s < t ==> (results[s].Ok? &&
      results[s].value == NonZerosIn(st, sparse, cols, blocks[s].lo, blocks[s].hi))
    ensures 0 <= End(blocks, t)
    ensures OkTotal(results[..t]) == NonZerosIn(st, sparse, cols, 0, End(blocks, t))
    ensures t == |blocks| ==> End(blocks, t) == len
  {
    if t == 0 {
      NonZerosSplit(st, sparse, cols, 0, 0, 0);
    } else {
      CountsAddUp(st, sparse, cols, blocks, results, len, t - 1);
      assert results[..t][..t - 1] == results[..t - 1];
      NonZerosSplit(st, sparse, cols, 0, blocks[t - 1].lo, blocks[t - 1].hi);
    }
  }

  /** The first failing task decides the outcome of a split. */
  lemma FirstFailureAt(blocks: seq<Block>, outcome: Block -> Result<()>, results: seq<Result<int>>, t: int)
    requires |results| == |blocks| && 0 <= t <= |blocks|
    requires forall s :: 0 <= s < |blocks| ==> Reports(results[s], outcome(blocks[s]))
    requires forall s :: 0 <= s < t ==> results[s].Ok?
    requires t < |blocks| ==> results[t].Err?
    ensures FirstFailure(blocks, outcome) == if t < |blocks| then Err(results[t].why) else Ok(())
  {
    var u := 0;
    while u < t
      invariant 0 <= u <= t && FirstFailure(blocks[..u], outcome) == Ok(())
    {
      FirstFailureSnoc(blocks, outcome, u);
      assert results[u].Ok? && Reports(results[u], outcome(blocks[u]));
      assert outcome(blocks[u]).Ok? && outcome(blocks[u]).value == ();
      u := u + 1;
    }
    if t < |blocks| {
      FirstFailureSnoc(blocks, outcome, t);
      assert Reports(results[t], outcome(blocks[t]));
      FirstFailureErr(blocks, outcome, t + 1);
    } else {
      assert blocks[..t] == blocks;
    }
  }

  /** execute(inputs, scalars, out, numThreads): the same checks, early
      exit and allocation as the sequential method; then a pool of
      numThreads threads (none can be made for fewer than one thread),
      one ParExecTask per block of the split dimension (A's columns in
      Left mode, A's rows otherwise), and the tasks' counts added to the
      output's non-zeros in task order, the first failing task's error
      ending the method. */
  method ExecuteMatrixParallel(inputs: Option<seq<MatrixInput>>, vk: VectorKernel, f: CellKernel, out: OutBlock?,
                               outType: OutProdType, numThreads: int) returns (res: Result<()>)
    requires InputsFit(inputs)
    requires out != null ==> 0 <= out.rows && 0 <= out.cols
    modifies out
    modifies if out == null then {} else {out.dense}
    modifies if out == null then {} else {out.sparseBlock}
    ensures !ValidInputs(inputs) || out == null ==> res == Err(InvalidArguments)
    ensures ValidInputs(inputs) && out != null && EmptyResult(inputs.value, outType) ==>
      res == Ok(()) && unchanged(out) && unchanged(out.dense) && unchanged(out.sparseBlock)
    ensures Proceeds(inputs, out != null, outType) && numThreads < 1 ==> res == Err(IllegalPoolSize)
    ensures Proceeds(inputs, out != null, outType) && 1 <= numThreads ==>
      var a, k := inputs.value[0], inputs.value[1].cols;
      var blocks := PartitionBlocks(SplitLen(a, outType), numThreads);
      res == FirstFailure(blocks, TaskOutcomes(a, k, outType)) &&
      out.sparse == (outType == CellwiseOuterProduct && a.sparse) &&
      0 <= out.rows * out.cols &&
      Holds(out.State(),
            Emit(Fresh(out.rows * out.cols), ConcatOver(blocks, ExecTraces(a, k, outType)), outType, out.sparse, vk, f, k),
            out.sparse) &&
      (outType != AggOuterProduct ==>
        out.rows == SplitLen(a, outType) && out.cols == OutCols(a, k, outType) &&
        (res.Ok? ==> out.nonZeros == NonZerosIn(out.State(), out.sparse, out.cols, 0, out.rows)))
  {
    if inputs.None? || |inputs.value| < 3 || out == null {
      return Err(InvalidArguments);
    }
    if EmptyResult(inputs.value, outType) {
      return Ok(());
    }
    var a, k := inputs.value[0], inputs.value[1].cols;
    Allocate(out, a, k, outType);
    MulNonNegative(out.rows, out.cols);
    if numThreads < 1 {
      return Err(IllegalPoolSize);
    }
    var len := SplitLen(a, outType);
    var blocks := Partition(len, numThreads);
    PartitionCovers(len, numThreads);
    PartitionTiles(len, numThreads);
    var results := RunExecTasks(a, vk, f, out, k, outType, blocks);
    ghost var st := out.State();
    var outcomes := TaskOutcomes(a, k, outType);
    ReportsAllEach(blocks, results, outcomes);
    if outType != AggOuterProduct {
      CountsMatchAll(st, out.sparse, out.cols, blocks, results);
    } else {
      forall s | 0 <= s < |blocks| ensures results[s].Err? {
        assert Reports(results[s], outcomes(blocks[s]));
      }
    }
    res := AddCounts(out, st, results, blocks, outcomes, len);
  }
}
