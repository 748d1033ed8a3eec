/**
 * The loops of the iterators, read as folds: the output after running the
 * cells of a dense row, the entries of a stretch of sparse storage, the
 * rows of a tile, the tiles of a row block, or the row blocks of a range,
 * one piece at a time and in loop order. The folds pass outputs, never
 * visit traces, from one level to the next; each is proved equal to
 * applying the corresponding visit trace at once, so a loop proved against
 * a fold ends with the effect of its trace.
 *
 * There is one family per kind of output: vector-kernel calls into a dense
 * buffer (Calls), scalar-kernel writes into a dense buffer (Cells), and
 * appends to a sparse output (Appends).
 */
module Folds {
  import opened Entries
  import opened SparseBlocks
  import opened Guides
  import opened Tiling
  import opened Kernels

  // ---------------------------------------------------------------------
  // Vector-kernel calls into a dense buffer.

  /** The output after the non-zero cells of dense row i (starting at
      position ix) in columns lo .. hi-1, left to right. */
  function RunDenseCalls(c: seq<real>, a: seq<real>, n: int, i: int, ix: int, lo: int, hi: int, vk: VectorKernel, k: int, left: bool): seq<real>
    decreases hi - lo
  {
    if hi <= lo then c
    else
      var prev := RunDenseCalls(c, a, n, i, ix, lo, hi - 1, vk, k, left);
      var j := hi - 1;
      if 0 <= j < n && 0 <= ix + j < |a| && a[ix + j] != 0.0
      then ApplyCall(prev, CallOf(Entry(i, j, ix + j, a[ix + j]), k, left), vk, k)
      else prev
  }

  /** The output after the entries at storage positions lo .. hi-1 of
      sparse row r, which is row i. */
  function RunStoredCalls(c: seq<real>, r: SparseRow, i: int, lo: int, hi: int, vk: VectorKernel, k: int, left: bool): seq<real>
    requires InStorage(r) && 0 <= lo && hi <= |r.indexes|
    decreases hi - lo
  {
    if hi <= lo then c
    else ApplyCall(RunStoredCalls(c, r, i, lo, hi - 1, vk, k, left), CallOf(Entry(i, r.indexes[hi - 1], hi - 1, r.values[hi - 1]), k, left), vk, k)
  }

  /** The output after the visits of row i of A in columns [lo, hi). */
  function RunRowCalls(c: seq<real>, g: Guide, i: int, lo: int, hi: int, vk: VectorKernel, k: int, left: bool): seq<real>
  {
    match g
    case DenseGuide(a, m, n) => if 0 <= i < m then RunDenseCalls(c, a, n, i, i * n, lo, hi, vk, k, left) else c
    case SparseGuide(sb, m, n) =>
      if 0 <= i < |sb.rows| && ValidRow(sb.rows[i], n)
      then RunStoredCalls(c, sb.rows[i], i, sb.rows[i].pos + Front(sb.rows[i], lo), sb.rows[i].pos + Front(sb.rows[i], hi), vk, k, left)
      else c
  }

  /** The output after the rows bi .. bimin-1 of the tile whose column
      range is [bj, bjmin), top to bottom. */
  function RunTileCalls(c: seq<real>, g: Guide, bi: int, bimin: int, bj: int, bjmin: int, vk: VectorKernel, k: int, left: bool): seq<real>
    decreases bimin - bi
  {
    if bimin <= bi then c
    else RunRowCalls(RunTileCalls(c, g, bi, bimin - 1, bj, bjmin, vk, k, left), g, bimin - 1, bj, bjmin, vk, k, left)
  }

  /** The output after the tiles of row block [bi, bimin) whose column
      blocks start at bj, bj + bsJ, ... below cu. */
  function RunBandCalls(c: seq<real>, g: Guide, bi: int, bimin: int, bj: int, cu: int, bsJ: int, vk: VectorKernel, k: int, left: bool): seq<real>
    requires 0 < bsJ
    decreases cu - bj
  {
    if bj >= cu then c
    else RunBandCalls(RunTileCalls(c, g, bi, bimin, bj, Min(cu, bj + bsJ), vk, k, left), g, bi, bimin, bj + bsJ, cu, bsJ, vk, k, left)
  }

  /** The output after the row blocks starting at bi, bi + bsI, ... below
      ru, over the column range [cl, cu). */
  function RunTiledCalls(c: seq<real>, g: Guide, bi: int, ru: int, cl: int, cu: int, bsI: int, bsJ: int, vk: VectorKernel, k: int, left: bool): seq<real>
    requires 0 < bsI && 0 < bsJ
    decreases ru - bi
  {
    if bi >= ru then c
    else RunTiledCalls(RunBandCalls(c, g, bi, Min(ru, bi + bsI), cl, cu, bsJ, vk, k, left), g, bi + bsI, ru, cl, cu, bsI, bsJ, vk, k, left)
  }

  lemma {:induction false} RunDenseCallsSpec(c: seq<real>, a: seq<real>, n: int, i: int, ix: int, lo: int, hi: int, vk: VectorKernel, k: int, left: bool)
    ensures RunDenseCalls(c, a, n, i, ix, lo, hi, vk, k, left) == ApplyCalls(c, DenseRow(a, n, i, ix, lo, hi), vk, k, left)
    decreases hi - lo
  {
    if lo < hi {
      var j := hi - 1;
      RunDenseCallsSpec(c, a, n, i, ix, lo, j, vk, k, left);
      if 0 <= j < n && 0 <= ix + j < |a| && a[ix + j] != 0.0 {
        ApplyCallsSnoc(c, DenseRow(a, n, i, ix, lo, j), Entry(i, j, ix + j, a[ix + j]), vk, k, left);
      } else {
        assert DenseRow(a, n, i, ix, lo, hi) == DenseRow(a, n, i, ix, lo, j);
      }
    }
  }

  lemma {:induction false} RunStoredCallsSpec(c: seq<real>, r: SparseRow, i: int, lo: int, hi: int, vk: VectorKernel, k: int, left: bool)
    requires InStorage(r) && 0 <= lo && hi <= |r.indexes|
    ensures RunStoredCalls(c, r, i, lo, hi, vk, k, left) == ApplyCalls(c, RowRun(r, i, lo, hi), vk, k, left)
    decreases hi - lo
  {
    if lo < hi {
      RunStoredCallsSpec(c, r, i, lo, hi - 1, vk, k, left);
      ApplyCallsSnoc(c, RowRun(r, i, lo, hi - 1), Entry(i, r.indexes[hi - 1], hi - 1, r.values[hi - 1]), vk, k, left);
    }
  }

  lemma RunRowCallsSpec(c: seq<real>, g: Guide, i: int, lo: int, hi: int, vk: VectorKernel, k: int, left: bool)
    ensures RunRowCalls(c, g, i, lo, hi, vk, k, left) == ApplyCalls(c, RowVisits(g, i, lo, hi), vk, k, left)
  {
    match g
    case DenseGuide(a, m, n) =>
      RunDenseCallsSpec(c, a, n, i, i * n, lo, hi, vk, k, left);
    case SparseGuide(sb, m, n) =>
      if 0 <= i < |sb.rows| && ValidRow(sb.rows[i], n) {
        var r := sb.rows[i];
        RunStoredCallsSpec(c, r, i, r.pos + Front(r, lo), r.pos + Front(r, hi), vk, k, left);
      }
  }

  lemma {:induction false} RunTileCallsSpec(c: seq<real>, g: Guide, bi: int, bimin: int, bj: int, bjmin: int, vk: VectorKernel, k: int, left: bool)
    ensures RunTileCalls(c, g, bi, bimin, bj, bjmin, vk, k, left) == ApplyCalls(c, TileRows(g, bi, bimin, bj, bjmin), vk, k, left)
    decreases bimin - bi
  {
    if bi < bimin {
      var prefix, row := TileRows(g, bi, bimin - 1, bj, bjmin), RowVisits(g, bimin - 1, bj, bjmin);
      var mid := RunTileCalls(c, g, bi, bimin - 1, bj, bjmin, vk, k, left);
      RunTileCallsSpec(c, g, bi, bimin - 1, bj, bjmin, vk, k, left);
      RunRowCallsSpec(mid, g, bimin - 1, bj, bjmin, vk, k, left);
      ApplyCallsConcat(c, prefix, row, vk, k, left);
      assert TileRows(g, bi, bimin, bj, bjmin) == prefix + row;
    }
  }

  lemma {:induction false} RunBandCallsSpec(c: seq<real>, g: Guide, bi: int, bimin: int, bj: int, cu: int, bsJ: int, vk: VectorKernel, k: int, left: bool)
    requires 0 < bsJ
    ensures RunBandCalls(c, g, bi, bimin, bj, cu, bsJ, vk, k, left) == ApplyCalls(c, BandFrom(g, bi, bimin, bj, cu, bsJ), vk, k, left)
    decreases cu - bj
  {
    if bj < cu {
      var bjmin := Min(cu, bj + bsJ);
      var tile, rest := TileRows(g, bi, bimin, bj, bjmin), BandFrom(g, bi, bimin, bj + bsJ, cu, bsJ);
      var mid := RunTileCalls(c, g, bi, bimin, bj, bjmin, vk, k, left);
      RunTileCallsSpec(c, g, bi, bimin, bj, bjmin, vk, k, left);
      RunBandCallsSpec(mid, g, bi, bimin, bj + bsJ, cu, bsJ, vk, k, left);
      ApplyCallsConcat(c, tile, rest, vk, k, left);
      assert BandFrom(g, bi, bimin, bj, cu, bsJ) == tile + rest;
    }
  }

  lemma {:induction false} RunTiledCallsSpec(c: seq<real>, g: Guide, bi: int, ru: int, cl: int, cu: int, bsI: int, bsJ: int, vk: VectorKernel, k: int, left: bool)
    requires 0 < bsI && 0 < bsJ
    ensures RunTiledCalls(c, g, bi, ru, cl, cu, bsI, bsJ, vk, k, left) == ApplyCalls(c, TiledFrom(g, bi, ru, cl, cu, bsI, bsJ), vk, k, left)
    decreases ru - bi
  {
    if bi < ru {
      var bimin := Min(ru, bi + bsI);
      var band, rest := BandFrom(g, bi, bimin, cl, cu, bsJ), TiledFrom(g, bi + bsI, ru, cl, cu, bsI, bsJ);
      var mid := RunBandCalls(c, g, bi, bimin, cl, cu, bsJ, vk, k, left);
      RunBandCallsSpec(c, g, bi, bimin, cl, cu, bsJ, vk, k, left);
      RunTiledCallsSpec(mid, g, bi + bsI, ru, cl, cu, bsI, bsJ, vk, k, left);
      ApplyCallsConcat(c, band, rest, vk, k, left);
      assert TiledFrom(g, bi, ru, cl, cu, bsI, bsJ) == band + rest;
    }
  }

  // ---------------------------------------------------------------------
  // Scalar-kernel writes into a dense buffer.

  /** The output after the non-zero cells of dense row i (starting at
      position ix) in columns lo .. hi-1, left to right. */
  function RunDenseCells(c: seq<real>, a: seq<real>, n: int, i: int, ix: int, lo: int, hi: int, f: CellKernel, k: int, cellwise: bool): seq<real>
    decreases hi - lo
  {
    if hi <= lo then c
    else
      var prev := RunDenseCells(c, a, n, i, ix, lo, hi - 1, f, k, cellwise);
      var j := hi - 1;
      if 0 <= j < n && 0 <= ix + j < |a| && a[ix + j] != 0.0
      then ApplyCell(prev, Entry(i, j, ix + j, a[ix + j]), f, k, cellwise)
      else prev
  }

  /** The output after the entries at storage positions lo .. hi-1 of
      sparse row r, which is row i. */
  function RunStoredCells(c: seq<real>, r: SparseRow, i: int, lo: int, hi: int, f: CellKernel, k: int, cellwise: bool): seq<real>
    requires InStorage(r) && 0 <= lo && hi <= |r.indexes|
    decreases hi - lo
  {
    if hi <= lo then c
    else ApplyCell(RunStoredCells(c, r, i, lo, hi - 1, f, k, cellwise), Entry(i, r.indexes[hi - 1], hi - 1, r.values[hi - 1]), f, k, cellwise)
  }

  /** The output after the visits of row i of A in columns [lo, hi). */
  function RunRowCells(c: seq<real>, g: Guide, i: int, lo: int, hi: int, f: CellKernel, k: int, cellwise: bool): seq<real>
  {
    match g
    case DenseGuide(a, m, n) => if 0 <= i < m then RunDenseCells(c, a, n, i, i * n, lo, hi, f, k, cellwise) else c
    case SparseGuide(sb, m, n) =>
      if 0 <= i < |sb.rows| && ValidRow(sb.rows[i], n)
      then RunStoredCells(c, sb.rows[i], i, sb.rows[i].pos + Front(sb.rows[i], lo), sb.rows[i].pos + Front(sb.rows[i], hi), f, k, cellwise)
      else c
  }

  /** The output after the rows bi .. bimin-1 of the tile whose column
      range is [bj, bjmin), top to bottom. */
  function RunTileCells(c: seq<real>, g: Guide, bi: int, bimin: int, bj: int, bjmin: int, f: CellKernel, k: int, cellwise: bool): seq<real>
    decreases bimin - bi
  {
    if bimin <= bi then c
    else RunRowCells(RunTileCells(c, g, bi, bimin - 1, bj, bjmin, f, k, cellwise), g, bimin - 1, bj, bjmin, f, k, cellwise)
  }

  /** The output after the tiles of row block [bi, bimin) whose column
      blocks start at bj, bj + bsJ, ... below cu. */
  function RunBandCells(c: seq<real>, g: Guide, bi: int, bimin: int, bj: int, cu: int, bsJ: int, f: CellKernel, k: int, cellwise: bool): seq<real>
    requires 0 < bsJ
    decreases cu - bj
  {
    if bj >= cu then c
    else RunBandCells(RunTileCells(c, g, bi, bimin, bj, Min(cu, bj + bsJ), f, k, cellwise), g, bi, bimin, bj + bsJ, cu, bsJ, f, k, cellwise)
  }

  /** The output after the row blocks starting at bi, bi + bsI, ... below
      ru, over the column range [cl, cu). */
  function RunTiledCells(c: seq<real>, g: Guide, bi: int, ru: int, cl: int, cu: int, bsI: int, bsJ: int, f: CellKernel, k: int, cellwise: bool): seq<real>
    requires 0 < bsI && 0 < bsJ
    decreases ru - bi
  {
    if bi >= ru then c
    else RunTiledCells(RunBandCells(c, g, bi, Min(ru, bi + bsI), cl, cu, bsJ, f, k, cellwise), g, bi + bsI, ru, cl, cu, bsI, bsJ, f, k, cellwise)
  }

  lemma {:induction false} RunDenseCellsSpec(c: seq<real>, a: seq<real>, n: int, i: int, ix: int, lo: int, hi: int, f: CellKernel, k: int, cellwise: bool)
    ensures RunDenseCells(c, a, n, i, ix, lo, hi, f, k, cellwise) == ApplyCells(c, DenseRow(a, n, i, ix, lo, hi), f, k, cellwise)
    decreases hi - lo
  {
    if lo < hi {
      var j := hi - 1;
      RunDenseCellsSpec(c, a, n, i, ix, lo, j, f, k, cellwise);
      if 0 <= j < n && 0 <= ix + j < |a| && a[ix + j] != 0.0 {
        ApplyCellsSnoc(c, DenseRow(a, n, i, ix, lo, j), Entry(i, j, ix + j, a[ix + j]), f, k, cellwise);
      } else {
        assert DenseRow(a, n, i, ix, lo, hi) == DenseRow(a, n, i, ix, lo, j);
      }
    }
  }

  lemma {:induction false} RunStoredCellsSpec(c: seq<real>, r: SparseRow, i: int, lo: int, hi: int, f: CellKernel, k: int, cellwise: bool)
    requires InStorage(r) && 0 <= lo && hi <= |r.indexes|
    ensures RunStoredCells(c, r, i, lo, hi, f, k, cellwise) == ApplyCells(c, RowRun(r, i, lo, hi), f, k, cellwise)
    decreases hi - lo
  {
    if lo < hi {
      RunStoredCellsSpec(c, r, i, lo, hi - 1, f, k, cellwise);
      ApplyCellsSnoc(c, RowRun(r, i, lo, hi - 1), Entry(i, r.indexes[hi - 1], hi - 1, r.values[hi - 1]), f, k, cellwise);
    }
  }

  lemma RunRowCellsSpec(c: seq<real>, g: Guide, i: int, lo: int, hi: int, f: CellKernel, k: int, cellwise: bool)
    ensures RunRowCells(c, g, i, lo, hi, f, k, cellwise) == ApplyCells(c, RowVisits(g, i, lo, hi), f, k, cellwise)
  {
    match g
    case DenseGuide(a, m, n) =>
      RunDenseCellsSpec(c, a, n, i, i * n, lo, hi, f, k, cellwise);
    case SparseGuide(sb, m, n) =>
      if 0 <= i < |sb.rows| && ValidRow(sb.rows[i], n) {
        var r := sb.rows[i];
        RunStoredCellsSpec(c, r, i, r.pos + Front(r, lo), r.pos + Front(r, hi), f, k, cellwise);
      }
  }

  lemma {:induction false} RunTileCellsSpec(c: seq<real>, g: Guide, bi: int, bimin: int, bj: int, bjmin: int, f: CellKernel, k: int, cellwise: bool)
    ensures RunTileCells(c, g, bi, bimin, bj, bjmin, f, k, cellwise) == ApplyCells(c, TileRows(g, bi, bimin, bj, bjmin), f, k, cellwise)
    decreases bimin - bi
  {
    if bi < bimin {
      var prefix, row := TileRows(g, bi, bimin - 1, bj, bjmin), RowVisits(g, bimin - 1, bj, bjmin);
      var mid := RunTileCells(c, g, bi, bimin - 1, bj, bjmin, f, k, cellwise);
      RunTileCellsSpec(c, g, bi, bimin - 1, bj, bjmin, f, k, cellwise);
      RunRowCellsSpec(mid, g, bimin - 1, bj, bjmin, f, k, cellwise);
      ApplyCellsConcat(c, prefix, row, f, k, cellwise);
      assert TileRows(g, bi, bimin, bj, bjmin) == prefix + row;
    }
  }

  lemma {:induction false} RunBandCellsSpec(c: seq<real>, g: Guide, bi: int, bimin: int, bj: int, cu: int, bsJ: int, f: CellKernel, k: int, cellwise: bool)
    requires 0 < bsJ
    ensures RunBandCells(c, g, bi, bimin, bj, cu, bsJ, f, k, cellwise) == ApplyCells(c, BandFrom(g, bi, bimin, bj, cu, bsJ), f, k, cellwise)
    decreases cu - bj
  {
    if bj < cu {
      var bjmin := Min(cu, bj + bsJ);
      var tile, rest := TileRows(g, bi, bimin, bj, bjmin), BandFrom(g, bi, bimin, bj + bsJ, cu, bsJ);
      var mid := RunTileCells(c, g, bi, bimin, bj, bjmin, f, k, cellwise);
      RunTileCellsSpec(c, g, bi, bimin, bj, bjmin, f, k, cellwise);
      RunBandCellsSpec(mid, g, bi, bimin, bj + bsJ, cu, bsJ, f, k, cellwise);
      ApplyCellsConcat(c, tile, rest, f, k, cellwise);
      assert BandFrom(g, bi, bimin, bj, cu, bsJ) == tile + rest;
    }
  }

  lemma {:induction false} RunTiledCellsSpec(c: seq<real>, g: Guide, bi: int, ru: int, cl: int, cu: int, bsI: int, bsJ: int, f: CellKernel, k: int, cellwise: bool)
    requires 0 < bsI && 0 < bsJ
    ensures RunTiledCells(c, g, bi, ru, cl, cu, bsI, bsJ, f, k, cellwise) == ApplyCells(c, TiledFrom(g, bi, ru, cl, cu, bsI, bsJ), f, k, cellwise)
    decreases ru - bi
  {
    if bi < ru {
      var bimin := Min(ru, bi + bsI);
      var band, rest := BandFrom(g, bi, bimin, cl, cu, bsJ), TiledFrom(g, bi + bsI, ru, cl, cu, bsI, bsJ);
      var mid := RunBandCells(c, g, bi, bimin, cl, cu, bsJ, f, k, cellwise);
      RunBandCellsSpec(c, g, bi, bimin, cl, cu, bsJ, f, k, cellwise);
      RunTiledCellsSpec(mid, g, bi + bsI, ru, cl, cu, bsI, bsJ, f, k, cellwise);
      ApplyCellsConcat(c, band, rest, f, k, cellwise);
      assert TiledFrom(g, bi, ru, cl, cu, bsI, bsJ) == band + rest;
    }
  }

  // ---------------------------------------------------------------------
  // Appends to a sparse output.

  /** The output after the non-zero cells of dense row i (starting at
      position ix) in columns lo .. hi-1, left to right. */
  function RunDenseAppends(log: seq<Append>, a: seq<real>, n: int, i: int, ix: int, lo: int, hi: int, f: CellKernel, k: int): seq<Append>
    decreases hi - lo
  {
    if hi <= lo then log
    else
      var prev := RunDenseAppends(log, a, n, i, ix, lo, hi - 1, f, k);
      var j := hi - 1;
      if 0 <= j < n && 0 <= ix + j < |a| && a[ix + j] != 0.0
      then prev + [Append((Entry(i, j, ix + j, a[ix + j])).row, (Entry(i, j, ix + j, a[ix + j])).pos, CellValue(f, k, Entry(i, j, ix + j, a[ix + j])))]
      else prev
  }

  /** The output after the entries at storage positions lo .. hi-1 of
      sparse row r, which is row i. */
  function RunStoredAppends(log: seq<Append>, r: SparseRow, i: int, lo: int, hi: int, f: CellKernel, k: int): seq<Append>
    requires InStorage(r) && 0 <= lo && hi <= |r.indexes|
    decreases hi - lo
  {
    if hi <= lo then log
    else RunStoredAppends(log, r, i, lo, hi - 1, f, k) + [Append((Entry(i, r.indexes[hi - 1], hi - 1, r.values[hi - 1])).row, (Entry(i, r.indexes[hi - 1], hi - 1, r.values[hi - 1])).pos, CellValue(f, k, Entry(i, r.indexes[hi - 1], hi - 1, r.values[hi - 1])))]
  }

  /** The output after the visits of row i of A in columns [lo, hi). */
  function RunRowAppends(log: seq<Append>, g: Guide, i: int, lo: int, hi: int, f: CellKernel, k: int): seq<Append>
  {
    match g
    case DenseGuide(a, m, n) => if 0 <= i < m then RunDenseAppends(log, a, n, i, i * n, lo, hi, f, k) else log
    case SparseGuide(sb, m, n) =>
      if 0 <= i < |sb.rows| && ValidRow(sb.rows[i], n)
      then RunStoredAppends(log, sb.rows[i], i, sb.rows[i].pos + Front(sb.rows[i], lo), sb.rows[i].pos + Front(sb.rows[i], hi), f, k)
      else log
  }

  /** The output after the rows bi .. bimin-1 of the tile whose column
      range is [bj, bjmin), top to bottom. */
  function RunTileAppends(log: seq<Append>, g: Guide, bi: int, bimin: int, bj: int, bjmin: int, f: CellKernel, k: int): seq<Append>
    decreases bimin - bi
  {
    if bimin <= bi then log
    else RunRowAppends(RunTileAppends(log, g, bi, bimin - 1, bj, bjmin, f, k), g, bimin - 1, bj, bjmin, f, k)
  }

  /** The output after the tiles of row block [bi, bimin) whose column
      blocks start at bj, bj + bsJ, ... below cu. */
  function RunBandAppends(log: seq<Append>, g: Guide, bi: int, bimin: int, bj: int, cu: int, bsJ: int, f: CellKernel, k: int): seq<Append>
    requires 0 < bsJ
    decreases cu - bj
  {
    if bj >= cu then log
    else RunBandAppends(RunTileAppends(log, g, bi, bimin, bj, Min(cu, bj + bsJ), f, k), g, bi, bimin, bj + bsJ, cu, bsJ, f, k)
  }

  /** The output after the row blocks starting at bi, bi + bsI, ... below
      ru, over the column range [cl, cu). */
  function RunTiledAppends(log: seq<Append>, g: Guide, bi: int, ru: int, cl: int, cu: int, bsI: int, bsJ: int, f: CellKernel, k: int): seq<Append>
    requires 0 < bsI && 0 < bsJ
    decreases ru - bi
  {
    if bi >= ru then log
    else RunTiledAppends(RunBandAppends(log, g, bi, Min(ru, bi + bsI), cl, cu, bsJ, f, k), g, bi + bsI, ru, cl, cu, bsI, bsJ, f, k)
  }

  lemma {:induction false} RunDenseAppendsSpec(log: seq<Append>, a: seq<real>, n: int, i: int, ix: int, lo: int, hi: int, f: CellKernel, k: int)
    ensures RunDenseAppends(log, a, n, i, ix, lo, hi, f, k) == Appends(log, DenseRow(a, n, i, ix, lo, hi), f, k)
    decreases hi - lo
  {
    if lo < hi {
      var j := hi - 1;
      RunDenseAppendsSpec(log, a, n, i, ix, lo, j, f, k);
      if 0 <= j < n && 0 <= ix + j < |a| && a[ix + j] != 0.0 {
        AppendsSnoc(log, DenseRow(a, n, i, ix, lo, j), Entry(i, j, ix + j, a[ix + j]), f, k);
      } else {
        assert DenseRow(a, n, i, ix, lo, hi) == DenseRow(a, n, i, ix, lo, j);
      }
    }
  }

  lemma {:induction false} RunStoredAppendsSpec(log: seq<Append>, r: SparseRow, i: int, lo: int, hi: int, f: CellKernel, k: int)
    requires InStorage(r) && 0 <= lo && hi <= |r.indexes|
    ensures RunStoredAppends(log, r, i, lo, hi, f, k) == Appends(log, RowRun(r, i, lo, hi), f, k)
    decreases hi - lo
  {
    if lo < hi {
      RunStoredAppendsSpec(log, r, i, lo, hi - 1, f, k);
      AppendsSnoc(log, RowRun(r, i, lo, hi - 1), Entry(i, r.indexes[hi - 1], hi - 1, r.values[hi - 1]), f, k);
    }
  }

  lemma RunRowAppendsSpec(log: seq<Append>, g: Guide, i: int, lo: int, hi: int, f: CellKernel, k: int)
    ensures RunRowAppends(log, g, i, lo, hi, f, k) == Appends(log, RowVisits(g, i, lo, hi), f, k)
  {
    match g
    case DenseGuide(a, m, n) =>
      RunDenseAppendsSpec(log, a, n, i, i * n, lo, hi, f, k);
    case SparseGuide(sb, m, n) =>
      if 0 <= i < |sb.rows| && ValidRow(sb.rows[i], n) {
        var r := sb.rows[i];
        RunStoredAppendsSpec(log, r, i, r.pos + Front(r, lo), r.pos + Front(r, hi), f, k);
      }
  }

  lemma {:induction false} RunTileAppendsSpec(log: seq<Append>, g: Guide, bi: int, bimin: int, bj: int, bjmin: int, f: CellKernel, k: int)
    ensures RunTileAppends(log, g, bi, bimin, bj, bjmin, f, k) == Appends(log, TileRows(g, bi, bimin, bj, bjmin), f, k)
    decreases bimin - bi
  {
    if bi < bimin {
      var prefix, row := TileRows(g, bi, bimin - 1, bj, bjmin), RowVisits(g, bimin - 1, bj, bjmin);
      var mid := RunTileAppends(log, g, bi, bimin - 1, bj, bjmin, f, k);
      RunTileAppendsSpec(log, g, bi, bimin - 1, bj, bjmin, f, k);
      RunRowAppendsSpec(mid, g, bimin - 1, bj, bjmin, f, k);
      AppendsConcat(log, prefix, row, f, k);
      assert TileRows(g, bi, bimin, bj, bjmin) == prefix + row;
    }
  }

  lemma {:induction false} RunBandAppendsSpec(log: seq<Append>, g: Guide, bi: int, bimin: int, bj: int, cu: int, bsJ: int, f: CellKernel, k: int)
    requires 0 < bsJ
    ensures RunBandAppends(log, g, bi, bimin, bj, cu, bsJ, f, k) == Appends(log, BandFrom(g, bi, bimin, bj, cu, bsJ), f, k)
    decreases cu - bj
  {
    if bj < cu {
      var bjmin := Min(cu, bj + bsJ);
      var tile, rest := TileRows(g, bi, bimin, bj, bjmin), BandFrom(g, bi, bimin, bj + bsJ, cu, bsJ);
      var mid := RunTileAppends(log, g, bi, bimin, bj, bjmin, f, k);
      RunTileAppendsSpec(log, g, bi, bimin, bj, bjmin, f, k);
      RunBandAppendsSpec(mid, g, bi, bimin, bj + bsJ, cu, bsJ, f, k);
      AppendsConcat(log, tile, rest, f, k);
      assert BandFrom(g, bi, bimin, bj, cu, bsJ) == tile + rest;
    }
  }

  lemma {:induction false} RunTiledAppendsSpec(log: seq<Append>, g: Guide, bi: int, ru: int, cl: int, cu: int, bsI: int, bsJ: int, f: CellKernel, k: int)
    requires 0 < bsI && 0 < bsJ
    ensures RunTiledAppends(log, g, bi, ru, cl, cu, bsI, bsJ, f, k) == Appends(log, TiledFrom(g, bi, ru, cl, cu, bsI, bsJ), f, k)
    decreases ru - bi
  {
    if bi < ru {
      var bimin := Min(ru, bi + bsI);
      var band, rest := BandFrom(g, bi, bimin, cl, cu, bsJ), TiledFrom(g, bi + bsI, ru, cl, cu, bsI, bsJ);
      var mid := RunBandAppends(log, g, bi, bimin, cl, cu, bsJ, f, k);
      RunBandAppendsSpec(log, g, bi, bimin, cl, cu, bsJ, f, k);
      RunTiledAppendsSpec(mid, g, bi + bsI, ru, cl, cu, bsI, bsJ, f, k);
      AppendsConcat(log, band, rest, f, k);
      assert TiledFrom(g, bi, ru, cl, cu, bsI, bsJ) == band + rest;
    }
  }
}
