/**
 * The inputs of the executor, the iterator switch shared by the
 * matrix-output execute methods, and the two task bodies of the parallel
 * methods: ParExecTask runs one iterator over a slice of A into the shared
 * output block and counts the non-zeros of its slice; ParOuterProdAggTask
 * runs a scalar-kernel iterator over a slice into a 1x1 block of its own
 * and returns that block's value.
 */
module Tasks {
  import opened Entries
  import opened SparseBlocks
  import opened Guides
  import opened Tiling
  import opened Kernels
  import opened Outcomes
  import opened Blocking
  import opened Outputs
  import opened DenseIteration
  import opened SparseIteration
  import opened SparseCellwiseIteration
  import opened OutBlocks

  /** An input MatrixBlock: its dimensions, its format, its cells in
      row-major order (dense format) or its sparse block, and its recorded
      number of non-zeros. */
  datatype MatrixInput = MatrixInput(rows: int, cols: int, sparse: bool, dense: seq<real>,
                                     block: SparseBlock, nonZeros: int)

  /** A well-formed block: the storage of its format matches its
      dimensions. */
  predicate WellFormed(x: MatrixInput)
  {
    0 <= x.rows && 0 <= x.cols &&
    if x.sparse then ValidBlock(x.block, x.rows, x.cols) else |x.dense| == x.rows * x.cols
  }

  /** The block as the iterators read it. */
  function GuideOf(x: MatrixInput): Guide
  {
    if x.sparse then SparseGuide(x.block, x.rows, x.cols) else DenseGuide(x.dense, x.rows, x.cols)
  }

  /** isEmptyBlock(false): the block records no non-zero. */
  predicate IsEmptyBlock(x: MatrixInput)
  {
    x.nonZeros == 0
  }

  /** The visits of a blocked iteration over [rl, ru) x [cl, cu) of A with
      tiles of sizes.0 rows and sizes.1 columns; none unless both sizes are
      positive. */
  function Visits(a: MatrixInput, rl: int, ru: int, cl: int, cu: int, sizes: (int, int)): seq<Entry>
  {
    if 0 < sizes.0 && 0 < sizes.1 then TiledFrom(GuideOf(a), rl, ru, cl, cu, sizes.0, sizes.1) else []
  }

  /** Whatever the tile sizes, the iteration visits every non-zero cell (dense
      A) or stored entry (sparse A) of the range exactly once, and nothing
      else. */
  lemma VisitsSpec(a: MatrixInput, rl: int, ru: int, cl: int, cu: int, sizes: (int, int))
    requires 0 < sizes.0 && 0 < sizes.1
    ensures NoDup(Visits(a, rl, ru, cl, cu, sizes))
    ensures forall e :: e in Visits(a, rl, ru, cl, cu, sizes) <==>
      rl <= e.row < ru && cl <= e.col < cu && IsVisit(GuideOf(a), e)
  {
    TiledFromSpec(GuideOf(a), rl, ru, cl, cu, sizes.0, sizes.1);
  }

  /** Every iterator visits each row of A left to right, and so in
      increasing storage order. */
  lemma VisitsIncreasing(a: MatrixInput, rl: int, ru: int, cl: int, cu: int, sizes: (int, int))
    requires 0 < sizes.0 && 0 < sizes.1
    ensures ColumnsIncreasing(Visits(a, rl, ru, cl, cu, sizes))
    ensures PositionsIncreasing(Visits(a, rl, ru, cl, cu, sizes))
  {
    var g := GuideOf(a);
    TiledFromIncreasing(g, rl, ru, cl, cu, sizes.0, sizes.1);
    TiledFromSpec(g, rl, ru, cl, cu, sizes.0, sizes.1);
    PositionsFollowColumns(g, Visits(a, rl, ru, cl, cu, sizes));
  }

  /** The tile sizes of the scalar-kernel iterators over the rows [rl, ru):
      16 x 16 over a dense A; over a sparse A the square block of
      executeCellwiseSparse for the given non-zero count, or how it fails. */
  function CellSizes(a: MatrixInput, nnz: int, rl: int, ru: int): Result<(int, int)>
  {
    if !a.sparse then Ok((BlocksizeIJ, BlocksizeIJ))
    else match CellwiseBlockSize(a.rows, a.cols, nnz, rl, ru)
      case Err(why) => Err(why)
      case Ok(bs) => Ok((bs, bs))
  }

  /** The tile sizes of the vector-kernel iterators over the rows [rl, ru):
      16 x 16 over a dense A; over a sparse A those of executeSparse, which
      is passed `(int) a.getNonZeros()`, or how they fail. */
  function CallSizes(a: MatrixInput, k: int, left: bool, rl: int, ru: int): Result<(int, int)>
  {
    if !a.sparse then Ok((BlocksizeIJ, BlocksizeIJ))
    else SparseBlockSizes(a.rows, a.cols, k, ToInt32(a.nonZeros), left, rl, ru)
  }

  /** The tile sizes of the iterator the matrix-output switch picks. */
  function ExecSizes(a: MatrixInput, k: int, outType: OutProdType, rl: int, ru: int): Result<(int, int)>
  {
    if outType == CellwiseOuterProduct then CellSizes(a, ToInt32(a.nonZeros), rl, ru)
    else CallSizes(a, k, outType == LeftOuterProduct, rl, ru)
  }

  /** The visits of a scalar-kernel iterator: over a sparse A it scans all
      columns of its rows, whatever column range it is given. */
  function CellVisits(a: MatrixInput, rl: int, ru: int, cl: int, cu: int, sizes: (int, int)): seq<Entry>
  {
    if a.sparse then Visits(a, rl, ru, 0, a.cols, sizes) else Visits(a, rl, ru, cl, cu, sizes)
  }

  /** The visits of the iterator the matrix-output switch picks. */
  function ExecVisits(a: MatrixInput, outType: OutProdType, rl: int, ru: int, cl: int, cu: int, sizes: (int, int)): seq<Entry>
  {
    if outType == CellwiseOuterProduct then CellVisits(a, rl, ru, cl, cu, sizes) else Visits(a, rl, ru, cl, cu, sizes)
  }

  /** The output after a visit trace in a matrix-output mode: vector-kernel
      calls into the dense buffer (Left, Right), scalar-kernel values at
      their storage positions in the dense buffer or appended to the sparse
      block (Cellwise). */
  function Emit(st: Contents, es: seq<Entry>, outType: OutProdType, toSparse: bool,
                vk: VectorKernel, f: CellKernel, k: int): Contents
  {
    if outType == LeftOuterProduct || outType == RightOuterProduct
    then st.(dense := ApplyCalls(st.dense, es, vk, k, outType == LeftOuterProduct))
    else if outType == CellwiseOuterProduct then
      if toSparse then st.(appended := Appends(st.appended, es, f, k))
      else st.(dense := ApplyCells(st.dense, es, f, k, true))
    else st
  }

  /** What the switch needs of the output block: a dense n x k (Left) or
      m x k (Right) buffer; in Cellwise mode the format of A and, in dense
      format, an m x n buffer. */
  predicate OutputFits(a: MatrixInput, k: int, outType: OutProdType, sparse: bool, len: int)
  {
    (outType == LeftOuterProduct || outType == RightOuterProduct ==>
      len == (if outType == LeftOuterProduct then a.cols else a.rows) * k) &&
    (outType == CellwiseOuterProduct ==> sparse == a.sparse && (!sparse ==> len == a.rows * a.cols))
  }

  /** Every visit of the trace is inside the buffer. */
  lemma {:induction false} PositionsBelowAll(es: seq<Entry>, len: int)
    requires forall e :: e in es ==> 0 <= e.pos < len
    ensures PositionsBelow(es, len)
    decreases |es|
  {
    if es != [] {
      assert forall e :: e in es[..|es| - 1] ==> e in es;
      PositionsBelowAll(es[..|es| - 1], len);
      assert es[|es| - 1] in es;
    }
  }

  /** The cells of a dense m x n matrix all lie inside its m*n buffer. */
  lemma DensePositions(a: seq<real>, m: int, n: int, rl: int, ru: int, cl: int, cu: int)
    requires |a| == m * n
    ensures PositionsBelow(DenseEntries(a, m, n, rl, ru, cl, cu), m * n)
  {
    DenseVisits(a, m, n, rl, ru, cl, cu);
    PositionsBelowAll(DenseEntries(a, m, n, rl, ru, cl, cu), m * n);
  }

  /** Row by row storage bounds make the whole range's storage bound. */
  lemma {:induction false} StorageBelowAll(sb: SparseBlock, rl: int, ru: int, len: int)
    requires forall i :: rl <= i < ru && 0 <= i < |sb.rows| && 0 < sb.rows[i].size ==>
      sb.rows[i].pos + sb.rows[i].size <= len
    ensures StorageBelow(sb, rl, ru, len)
    decreases ru - rl
  {
    if rl < ru {
      StorageBelowAll(sb, rl, ru - 1, len);
    }
  }

  /** When every visit of a full-width sparse iteration lies inside the
      buffer, so does the storage of every non-empty row: its last entry is
      one of the visits. */
  lemma StorageFromPositions(sb: SparseBlock, m: int, n: int, rl: int, ru: int, bs: int, len: int)
    requires ValidBlock(sb, m, n) && 0 < bs
    requires PositionsBelow(SparseEntries(sb, m, n, rl, ru, 0, n, bs, bs), len)
    ensures StorageBelow(sb, rl, ru, len)
  {
    var g := SparseGuide(sb, m, n);
    TiledFromSpec(g, rl, ru, 0, n, bs, bs);
    forall i | rl <= i < ru && 0 <= i < |sb.rows| && 0 < sb.rows[i].size
      ensures sb.rows[i].pos + sb.rows[i].size <= len
    {
      var r := sb.rows[i];
      var p := r.pos + r.size - 1;
      var e := Entry(i, r.indexes[p], p, r.values[p]);
      assert IsStoredEntry(r, i, e);
      PositionsBelowMember(SparseEntries(sb, m, n, rl, ru, 0, n, bs, bs), len, e);
    }
    StorageBelowAll(sb, rl, ru, len);
  }

  /** The switch of the matrix-output execute methods and of
      ParExecTask.call, over [rl, ru) x [cl, cu): Left and Right run
      executeDense or executeSparse, Cellwise runs executeCellwiseDense or
      executeCellwiseSparse by the output's format (which is A's), and the
      aggregate mode fails. */
  method RunIterator(a: MatrixInput, vk: VectorKernel, f: CellKernel, out: OutBlock, k: int,
                     outType: OutProdType, rl: int, ru: int, cl: int, cu: int) returns (res: Result<()>)
    requires WellFormed(a) && 0 <= k
    requires 0 <= rl && ru <= a.rows && 0 <= cl && cu <= a.cols
    requires OutputFits(a, k, outType, out.sparse, out.dense.Length)
    modifies out.dense, out.sparseBlock
    ensures outType == AggOuterProduct ==> res == Err(WrongCodepath) && out.State() == old(out.State())
    ensures outType != AggOuterProduct && ExecSizes(a, k, outType, rl, ru).Err? ==>
      res == Err(ExecSizes(a, k, outType, rl, ru).why) && out.State() == old(out.State())
    ensures outType != AggOuterProduct && ExecSizes(a, k, outType, rl, ru).Ok? ==>
      res == Ok(()) &&
      out.State() == Emit(old(out.State()), ExecVisits(a, outType, rl, ru, cl, cu, ExecSizes(a, k, outType, rl, ru).value),
                          outType, out.sparse, vk, f, k)
  {
    var m, n := a.rows, a.cols;
    if outType == AggOuterProduct {
      return Err(WrongCodepath);
    }
    if outType != CellwiseOuterProduct {
      if !a.sparse {
        ExecuteDense(a.dense, vk, out.dense, n, m, k, outType, rl, ru, cl, cu);
      } else {
        res := ExecuteSparse(a.block, vk, out.dense, n, m, k, ToInt32(a.nonZeros), outType, rl, ru, cl, cu);
        return;
      }
    } else if !out.sparse {
      DensePositions(a.dense, m, n, rl, ru, cl, cu);
      ExecuteCellwiseDense(a.dense, f, out.dense, n, m, k, outType, rl, ru, cl, cu);
    } else {
      res := ExecuteCellwiseSparse(a.block, f, out.dense, out.sparseBlock, true, n, m, k, ToInt32(a.nonZeros),
                                   outType, rl, ru, cl, cu);
      return;
    }
    res := Ok(());
  }

  /** The rows of the output a task counts: the columns [cl, cu) of A in
      Left mode, where the output has one row per column of A, and the rows
      [rl, ru) otherwise. */
  function CountedRows(outType: OutProdType, rl: int, ru: int, cl: int, cu: int): (int, int)
  {
    if outType == LeftOuterProduct then (cl, cu) else (rl, ru)
  }

  /** ParExecTask.call: run the switch over this task's slice, then return
      the number of non-zeros of the output rows the slice writes. */
  method ExecTask(a: MatrixInput, vk: VectorKernel, f: CellKernel, out: OutBlock, k: int,
                  outType: OutProdType, rl: int, ru: int, cl: int, cu: int) returns (res: Result<int>)
    requires WellFormed(a) && 0 <= k
    requires 0 <= rl && ru <= a.rows && 0 <= cl && cu <= a.cols
    requires OutputFits(a, k, outType, out.sparse, out.dense.Length)
    modifies out.dense, out.sparseBlock
    ensures outType == AggOuterProduct ==> res == Err(WrongCodepath) && out.State() == old(out.State())
    ensures outType != AggOuterProduct && ExecSizes(a, k, outType, rl, ru).Err? ==>
      res == Err(ExecSizes(a, k, outType, rl, ru).why) && out.State() == old(out.State())
    ensures outType != AggOuterProduct && ExecSizes(a, k, outType, rl, ru).Ok? ==>
      out.State() == Emit(old(out.State()), ExecVisits(a, outType, rl, ru, cl, cu, ExecSizes(a, k, outType, rl, ru).value),
                          outType, out.sparse, vk, f, k) &&
      res == Ok(NonZerosIn(out.State(), out.sparse, out.cols,
                           CountedRows(outType, rl, ru, cl, cu).0, CountedRows(outType, rl, ru, cl, cu).1))
  {
    var r := RunIterator(a, vk, f, out, k, outType, rl, ru, cl, cu);
    if r.Err? {
      return Err(r.why);
    }
    var rows := CountedRows(outType, rl, ru, cl, cu);
    var count := out.CountNonZeros(rows.0, rows.1);
    return Ok(count);
  }

  /** The value a scalar-kernel iterator leaves in a fresh 1x1 block: the
      sum of the kernel over the visits when it accumulates into c[0]; in
      Cellwise mode, with every visit stored at position 0, the value of the
      last visit (0 when there is none). */
  function ScalarOf(es: seq<Entry>, f: CellKernel, k: int, cellwise: bool): real
  {
    if !cellwise then CellSum(es, f, k)
    else if es == [] then 0.0
    else CellValue(f, k, es[|es| - 1])
  }

  /** The outcome of a scalar-kernel iteration over [rl, ru) x [cl, cu)
      into a fresh 1x1 block: the block-size failure, an out-of-bounds write
      when Cellwise mode stores a visit beyond the single cell, or the
      value. */
  function ScalarResult(a: MatrixInput, f: CellKernel, k: int, nnz: int, outType: OutProdType,
                        rl: int, ru: int, cl: int, cu: int): Result<real>
  {
    match CellSizes(a, nnz, rl, ru)
    case Err(why) => Err(why)
    case Ok(sizes) =>
      var es := CellVisits(a, rl, ru, cl, cu, sizes);
      if outType == CellwiseOuterProduct && !PositionsBelow(es, 1) then Err(IndexOutOfBounds)
      else Ok(ScalarOf(es, f, k, outType == CellwiseOuterProduct))
  }

  /** A 1x1 buffer that starts at 0 ends with the trace's scalar. */
  lemma {:induction false} ScalarCell(es: seq<Entry>, f: CellKernel, k: int, cellwise: bool)
    requires cellwise ==> PositionsBelow(es, 1)
    ensures ApplyCells([0.0], es, f, k, cellwise) == [ScalarOf(es, f, k, cellwise)]
    decreases |es|
  {
    if !cellwise {
      ApplyCellsAggregate([0.0], es, f, k);
    } else if es != [] {
      ScalarCell(es[..|es| - 1], f, k, cellwise);
    }
  }

  /** The body shared by the scalar execute method and
      ParOuterProdAggTask.call: allocate a 1x1 block, run
      executeCellwiseDense or executeCellwiseSparse (writing into the dense
      cell) over the range, and return the cell. */
  method RunScalar(a: MatrixInput, f: CellKernel, k: int, nnz: int, outType: OutProdType,
                   rl: int, ru: int, cl: int, cu: int) returns (res: Result<real>)
    requires WellFormed(a) && 0 <= k
    requires 0 <= rl && ru <= a.rows && 0 <= cl && cu <= a.cols
    ensures res == ScalarResult(a, f, k, nnz, outType, rl, ru, cl, cu)
  {
    var c := new real[1](_ => 0.0);
    var cellwise := outType == CellwiseOuterProduct;
    var sizes := CellSizes(a, nnz, rl, ru);
    if sizes.Err? {
      return Err(sizes.why);
    }
    var es := CellVisits(a, rl, ru, cl, cu, sizes.value);
    // A Cellwise write c[pos] past the single cell ends the iteration.
    if cellwise && !PositionsBelow(es, 1) {
      return Err(IndexOutOfBounds);
    }
    assert c[..] == [0.0];
    if !a.sparse {
      ExecuteCellwiseDense(a.dense, f, c, a.cols, a.rows, k, outType, rl, ru, cl, cu);
    } else {
      if cellwise && rl < ru {
        StorageFromPositions(a.block, a.rows, a.cols, rl, ru, sizes.value.0, 1);
      }
      var sc := new SparseOut();
      var r := ExecuteCellwiseSparse(a.block, f, c, sc, false, a.cols, a.rows, k, nnz, outType, rl, ru, cl, cu);
    }
    ScalarCell(es, f, k, cellwise);
    return Ok(c[0]);
  }
}
