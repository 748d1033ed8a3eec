/**
 * How the parallel execute methods relate to the sequential ones, and what
 * the sequential methods' outputs hold, cell by cell.
 */

module Properties {
  import opened Entries
  import opened Guides
  import opened Kernels
  import opened Outcomes
  import opened Blocking
  import opened OutBlocks
  import opened Tasks
  import opened Parallel
  import opened Executor

  /** A run of tasks that all end the same way ends that way. */
  lemma {:induction false} FirstFailureUniform(blocks: seq<Block>, outcome: Block -> Result<()>, w: Result<()>)
    requires blocks != [] && forall t :: 0 <= t < |blocks| ==> outcome(blocks[t]) == w
    ensures FirstFailure(blocks, outcome) == w
    decreases |blocks|
  {
    var init := blocks[..|blocks| - 1];
    if init != [] {
      FirstFailureUniform(init, outcome, w);
    }
  }

  /** The parallel matrix-output method ends as the sequential one does:
      every task of a non-empty split meets the same block-size failure or
      the same aggregate-mode error as the whole range would. With nothing
      to split there are no tasks, and it succeeds. */
  lemma ParallelOutcome(a: MatrixInput, k: int, outType: OutProdType, p: int)
    requires WellFormed(a) && 1 <= p
    ensures FirstFailure(PartitionBlocks(SplitLen(a, outType), p), TaskOutcomes(a, k, outType)) ==
      if SplitLen(a, outType) == 0 then Ok(()) else TaskOutcome(a, k, outType, Block(0, SplitLen(a, outType)))
  {
    var len := SplitLen(a, outType);
    var blocks := PartitionBlocks(len, p);
    PartitionSpec(len, p);
    if len > 0 {
      var w := TaskOutcome(a, k, outType, Block(0, len));
      forall t | 0 <= t < |blocks| ensures TaskOutcomes(a, k, outType)(blocks[t]) == w {
        var b := blocks[t];
        if outType != LeftOuterProduct {
          assert ExecSizes(a, k, outType, b.lo, b.hi) == ExecSizes(a, k, outType, 0, a.rows);
        }
      }
      FirstFailureUniform(blocks, TaskOutcomes(a, k, outType), w);
    }
  }

  /** Over a non-empty range the iterators get positive tile sizes. */
  lemma PositiveSizes(a: MatrixInput, k: int, outType: OutProdType)
    requires 0 < a.rows && ExecSizes(a, k, outType, 0, a.rows).Ok?
    ensures 0 < ExecSizes(a, k, outType, 0, a.rows).value.0 && 0 < ExecSizes(a, k, outType, 0, a.rows).value.1
  {
  }

  /** The tasks of a split together write what one iteration over all of A
      writes: the same dense buffer, and the same appends up to their
      order. The tasks' slices are disjoint and cover A's visits, and the
      output is order-independent for disjoint visit sets. */
  lemma ParallelMatchesSequential(a: MatrixInput, k: int, outType: OutProdType, p: int, st: Contents,
                                  toSparse: bool, vk: VectorKernel, f: CellKernel)
    requires WellFormed(a) && 0 < a.rows && 1 <= p && outType != AggOuterProduct
    requires ExecSizes(a, k, outType, 0, a.rows).Ok?
    requires outType == CellwiseOuterProduct ==> toSparse == a.sparse
    ensures SameResult(
      Emit(st, ConcatOver(PartitionBlocks(SplitLen(a, outType), p), ExecTraces(a, k, outType)), outType, toSparse, vk, f, k),
      Emit(st, ExecVisits(a, outType, 0, a.rows, 0, a.cols, ExecSizes(a, k, outType, 0, a.rows).value), outType, toSparse, vk, f, k))
  {
    var len := SplitLen(a, outType);
    var left := outType == LeftOuterProduct;
    var blocks := PartitionBlocks(len, p);
    var tr := ExecTraces(a, k, outType);
    var sizes := ExecSizes(a, k, outType, 0, a.rows).value;
    var g := GuideOf(a);
    PositiveSizes(a, k, outType);
    PartitionSpec(len, p);
    PartitionCovers(len, p);
    forall b | b in blocks
      ensures NoDup(tr(b)) && forall e :: e in tr(b) <==> b.lo <= Coord(e, left) < b.hi && IsVisitOf(g, e)
    {
      var t :| 0 <= t < |blocks| && blocks[t] == b;
      var sl := TaskSlice(a, outType, b);
      assert ExecSizes(a, k, outType, sl.0, sl.1) == Ok(sizes);
      ExecTraceSpec(a, k, outType, b);
    }
    PartitionedTraces(g, len, p, left, tr);
    var par := ConcatOver(blocks, tr);
    var whole := ExecVisits(a, outType, 0, a.rows, 0, a.cols, sizes);
    VisitsSpec(a, 0, a.rows, 0, a.cols, sizes);
    if outType == CellwiseOuterProduct && !toSparse {
      DensePositionsDistinct(a, par);
    }
    EmitSameMembers(st, par, whole, outType, toSparse, vk, f, k);
  }

  /** Left and Right mode: every cell of the output is the sum, over the
      visits of A in any order, of what each visit's kernel call adds
      there. Each visit of A is counted once. */
  lemma CallsOutputIsSum(a: MatrixInput, k: int, outType: OutProdType, sizes: (int, int), len: nat,
                         toSparse: bool, vk: VectorKernel, f: CellKernel, es: seq<Entry>, q: int)
    requires outType == LeftOuterProduct || outType == RightOuterProduct
    requires 0 < sizes.0 && 0 < sizes.1 && 0 <= q < len
    requires NoDup(es) && forall e :: e in es <==> IsVisitOf(GuideOf(a), e)
    ensures Emit(Fresh(len), ExecVisits(a, outType, 0, a.rows, 0, a.cols, sizes), outType, toSparse, vk, f, k).dense[q] ==
      SumBy(es, Contributions(vk, k, outType == LeftOuterProduct, q))
  {
    var left := outType == LeftOuterProduct;
    var whole := Visits(a, 0, a.rows, 0, a.cols, sizes);
    ApplyCallsAt(Fresh(len).dense, whole, vk, k, left, q);
    VisitsSpec(a, 0, a.rows, 0, a.cols, sizes);
    SameMembersPermutation(whole, es);
    SumByPermutation(whole, es, Contributions(vk, k, left, q));
  }

  /** The row and column of storage position q of an m x n dense block. */
  lemma CellOf(q: int, m: int, n: int) returns (i: int, j: int)
    requires 0 <= m && 0 <= n && 0 <= q < m * n
    ensures 0 < n && i == q / n && j == q % n
    ensures 0 <= i < m && 0 <= j < n && q == i * n + j
  {
    i, j := q / n, q % n;
    if i >= m {
      MulMonotone(m, i, n);
    }
  }

  /** Applying the cell kernel once per non-zero of a dense m x n block
      sets the cell (i, j) to its kernel value when it is non-zero and
      leaves it as it was otherwise. */
  lemma DenseCellApplied(c: seq<real>, d: seq<real>, m: int, n: int, es: seq<Entry>, f: CellKernel, k: int,
                         i: int, j: int)
    requires 0 <= i < m && 0 <= j < n && |c| == |d| == m * n
    requires forall e :: e in es <==> IsDenseVisit(d, m, n, e)
    ensures 0 <= i * n + j < m * n && |ApplyCells(c, es, f, k, true)| == m * n
    ensures ApplyCells(c, es, f, k, true)[i * n + j] ==
      if d[i * n + j] != 0.0 then f(d[i * n + j], i * k, j * k, i, j) else c[i * n + j]
  {
    RowFits(i, m, n);
    var q := i * n + j;
    forall x, y | x in es && y in es && x.pos == y.pos ensures x == y {
      CellPositionInjective(x.row, x.col, y.row, y.col, n);
    }
    ApplyCellsAt(c, es, f, k);
    if d[q] != 0.0 {
      var e := Entry(i, j, q, d[q]);
      assert IsDenseVisit(d, m, n, e);
    } else {
      forall e | e in es ensures e.pos != q { }
    }
  }

  /** Cellwise mode over a dense A, cell (i, j): the output holds the
      kernel value of the cell if it is non-zero, and 0 otherwise. */
  lemma CellwiseDenseCell(a: MatrixInput, k: int, sizes: (int, int), vk: VectorKernel, f: CellKernel, i: int, j: int)
    requires WellFormed(a) && !a.sparse && 0 < sizes.0 && 0 < sizes.1
    requires 0 <= i < a.rows && 0 <= j < a.cols
    ensures var out := Emit(Fresh(a.rows * a.cols), ExecVisits(a, CellwiseOuterProduct, 0, a.rows, 0, a.cols, sizes),
                            CellwiseOuterProduct, false, vk, f, k).dense;
      |out| == a.rows * a.cols && 0 <= i * a.cols + j < a.rows * a.cols &&
      out[i * a.cols + j] ==
        if a.dense[i * a.cols + j] != 0.0 then f(a.dense[i * a.cols + j], i * k, j * k, i, j) else 0.0
  {
    var m, n := a.rows, a.cols;
    var es := Visits(a, 0, m, 0, n, sizes);
    VisitsSpec(a, 0, m, 0, n, sizes);
    DenseCellApplied(Fresh(m * n).dense, a.dense, m, n, es, f, k, i, j);
  }

  /** Cellwise mode over a dense A: the output has A's shape and holds the
      kernel value at every non-zero of A and zero at every zero of A. */
  lemma CellwiseDenseOutput(a: MatrixInput, k: int, sizes: (int, int), vk: VectorKernel, f: CellKernel, q: int)
    requires WellFormed(a) && !a.sparse && 0 < sizes.0 && 0 < sizes.1 && 0 <= q < a.rows * a.cols
    ensures var out := Emit(Fresh(a.rows * a.cols), ExecVisits(a, CellwiseOuterProduct, 0, a.rows, 0, a.cols, sizes),
                            CellwiseOuterProduct, false, vk, f, k).dense;
      |out| == a.rows * a.cols && 0 < a.cols &&
      out[q] == if a.dense[q] != 0.0 then f(a.dense[q], (q / a.cols) * k, (q % a.cols) * k, q / a.cols, q % a.cols) else 0.0
  {
    var i, j := CellOf(q, a.rows, a.cols);
    CellwiseDenseCell(a, k, sizes, vk, f, i, j);
  }

  /** Cellwise mode over a sparse A: one append per visit of A, carrying
      the visit's row, its storage position (not its column) and the
      kernel value, and no other append; within each output row the
      appended positions strictly increase. */
  lemma CellwiseSparseOutput(a: MatrixInput, k: int, sizes: (int, int), len: nat, vk: VectorKernel, f: CellKernel,
                             es: seq<Entry>)
    requires WellFormed(a) && a.sparse && 0 < sizes.0 && 0 < sizes.1
    requires NoDup(es) && forall e :: e in es <==> IsVisitOf(GuideOf(a), e)
    ensures var log := Emit(Fresh(len), ExecVisits(a, CellwiseOuterProduct, 0, a.rows, 0, a.cols, sizes),
                            CellwiseOuterProduct, true, vk, f, k).appended;
      |log| == |es| &&
      (forall e :: IsVisitOf(GuideOf(a), e) ==> Append(e.row, e.pos, CellValue(f, k, e)) in log) &&
      (forall x :: x in log ==> exists e :: IsVisitOf(GuideOf(a), e) && x == Append(e.row, e.pos, CellValue(f, k, e))) &&
      (forall p, q :: 0 <= p < q < |log| && log[p].row == log[q].row ==> log[p].col < log[q].col)
  {
    var whole := Visits(a, 0, a.rows, 0, a.cols, sizes);
    VisitsSpec(a, 0, a.rows, 0, a.cols, sizes);
    AppendsMembers(whole, f, k);
    VisitsIncreasing(a, 0, a.rows, 0, a.cols, sizes);
    AppendsIncreasing(whole, f, k);
    SameMembersPermutation(whole, es);
    assert |whole| == |multiset(whole)| == |multiset(es)| == |es|;
  }
}
