/**
 * The two iterators over a dense guiding matrix A (m x n, row-major, flat):
 * executeDense (vector kernel, Left and Right modes) and
 * executeCellwiseDense (scalar kernel, Cellwise and Aggregate modes).
 * Both tile [rl, ru) x [cl, cu) into 16 x 16 blocks and visit each cell of a
 * tile in row-major order, skipping cells whose value is exactly zero.
 */
module DenseIteration {
  import opened Entries
  import opened Guides
  import opened Tiling
  import opened Kernels
  import opened Folds

  /** Edge length of the square tiles (a U/V block pair fits a 256 KB L2). */
  const BlocksizeIJ: int := 16

  /** The visits of executeDense / executeCellwiseDense over
      [rl, ru) x [cl, cu), in the order they happen. */
  function DenseEntries(a: seq<real>, m: int, n: int, rl: int, ru: int, cl: int, cu: int): seq<Entry>
  {
    TiledFrom(DenseGuide(a, m, n), rl, ru, cl, cu, BlocksizeIJ, BlocksizeIJ)
  }

  /** The tiled dense iteration visits each non-zero cell of
      [rl, ru) x [cl, cu) exactly once, and no zero cell and no cell outside
      that range. */
  lemma DenseVisits(a: seq<real>, m: int, n: int, rl: int, ru: int, cl: int, cu: int)
    ensures NoDup(DenseEntries(a, m, n, rl, ru, cl, cu))
    ensures forall e :: e in DenseEntries(a, m, n, rl, ru, cl, cu) <==>
      rl <= e.row < ru && cl <= e.col < cu && IsDenseVisit(a, m, n, e)
  {
    TiledFromSpec(DenseGuide(a, m, n), rl, ru, cl, cu, BlocksizeIJ, BlocksizeIJ);
  }

  /** executeDense: for every visit, call the vector kernel with the cell's
      value, U offset i*k, V offset j*k and output offset j*k (Left) or
      i*k (otherwise). */
  method ExecuteDense(a: seq<real>, vk: VectorKernel, c: array<real>, n: int, m: int, k: int,
                      outType: OutProdType, rl: int, ru: int, cl: int, cu: int)
    requires 0 <= m && 0 <= n && 0 <= k && |a| == m * n
    requires 0 <= rl && ru <= m && 0 <= cl && cu <= n
    requires c.Length == (if outType == LeftOuterProduct then n else m) * k
    modifies c
    ensures c[..] == ApplyCalls(old(c[..]), DenseEntries(a, m, n, rl, ru, cl, cu), vk, k, outType == LeftOuterProduct)
  {
    ghost var c0 := c[..];
    var bs := BlocksizeIJ;
    DenseRowBlocks(a, vk, c, n, m, k, outType == LeftOuterProduct, rl, ru, cl, cu, bs);
    RunTiledCallsSpec(c0, DenseGuide(a, m, n), rl, ru, cl, cu, bs, bs, vk, k, outType == LeftOuterProduct);
  }

  /** The row-block loop of executeDense, with block size bs. */
  method DenseRowBlocks(a: seq<real>, vk: VectorKernel, c: array<real>, n: int, m: int, k: int,
                        left: bool, rl: int, ru: int, cl: int, cu: int, bs: int)
    requires 0 <= m && 0 <= n && 0 <= k && |a| == m * n
    requires 0 <= rl && ru <= m && 0 <= cl && cu <= n && 0 < bs
    requires c.Length == (if left then n else m) * k
    modifies c
    ensures c[..] == RunTiledCalls(old(c[..]), DenseGuide(a, m, n), rl, ru, cl, cu, bs, bs, vk, k, left)
  {
    ghost var g := DenseGuide(a, m, n);
    ghost var goal := RunTiledCalls(c[..], g, rl, ru, cl, cu, bs, bs, vk, k, left);
    var bi := rl;
    while bi < ru
      invariant rl <= bi
      invariant RunTiledCalls(c[..], g, bi, ru, cl, cu, bs, bs, vk, k, left) == goal
      decreases ru - bi
    {
      var bimin := Min(ru, bi + bs);
      DenseBandCalls(a, vk, c, n, m, k, left, bi, bimin, cl, cu, bs);
      bi := bi + bs;
    }
  }

  /** The column-block loop of executeDense over the row block [bi, bimin). */
  method DenseBandCalls(a: seq<real>, vk: VectorKernel, c: array<real>, n: int, m: int, k: int,
                        left: bool, bi: int, bimin: int, cl: int, cu: int, bs: int)
    requires 0 <= m && 0 <= n && 0 <= k && |a| == m * n
    requires 0 <= bi <= bimin <= m && 0 <= cl && cu <= n && 0 < bs
    requires c.Length == (if left then n else m) * k
    modifies c
    ensures c[..] == RunBandCalls(old(c[..]), DenseGuide(a, m, n), bi, bimin, cl, cu, bs, vk, k, left)
  {
    ghost var g := DenseGuide(a, m, n);
    ghost var goal := RunBandCalls(c[..], g, bi, bimin, cl, cu, bs, vk, k, left);
    var bj := cl;
    while bj < cu
      invariant cl <= bj
      invariant RunBandCalls(c[..], g, bi, bimin, bj, cu, bs, vk, k, left) == goal
      decreases cu - bj
    {
      var bjmin := Min(cu, bj + bs);
      DenseTileCalls(a, vk, c, n, m, k, left, bi, bimin, bj, bjmin);
      bj := bj + bs;
    }
  }

  /** The two inner loops of executeDense: the rows [bi, bimin) of the tile
      whose column range is [bj, bjmin). */
  method DenseTileCalls(a: seq<real>, vk: VectorKernel, c: array<real>, n: int, m: int, k: int,
                        left: bool, bi: int, bimin: int, bj: int, bjmin: int)
    requires 0 <= m && 0 <= n && 0 <= k && |a| == m * n
    requires 0 <= bi <= bimin <= m && 0 <= bj <= bjmin <= n
    requires c.Length == (if left then n else m) * k
    modifies c
    ensures c[..] == RunTileCalls(old(c[..]), DenseGuide(a, m, n), bi, bimin, bj, bjmin, vk, k, left)
  {
    ghost var g := DenseGuide(a, m, n);
    ghost var s0 := c[..];
    var i, ix, uix := bi, bi * n, bi * k;
    while i < bimin
      invariant bi <= i <= bimin && ix == i * n && uix == i * k
      invariant c[..] == RunTileCalls(s0, g, bi, i, bj, bjmin, vk, k, left)
    {
      DenseRowCalls(a, vk, c, n, m, k, left, i, ix, uix, bj, bjmin);
      MulSucc(i, n);
      MulSucc(i, k);
      i, ix, uix := i + 1, ix + n, uix + k;
    }
  }

  /** The innermost loop of executeDense: row i of one tile, columns
      [bj, bjmin), with the row's A offset ix = i*n and U offset uix = i*k. */
  method DenseRowCalls(a: seq<real>, vk: VectorKernel, c: array<real>, n: int, m: int, k: int,
                       left: bool, i: int, ix: int, uix: int, bj: int, bjmin: int)
    requires 0 <= i < m && 0 <= n && 0 <= k && |a| == m * n
    requires 0 <= bj <= bjmin <= n
    requires ix == i * n && uix == i * k
    requires c.Length == (if left then n else m) * k
    modifies c
    ensures c[..] == RunDenseCalls(old(c[..]), a, n, i, ix, bj, bjmin, vk, k, left)
  {
    ghost var c0 := c[..];
    RowFits(i, m, n);
    if !left { RowFits(i, m, k); }
    var j, vix := bj, bj * k;
    while j < bjmin
      invariant bj <= j <= bjmin && vix == j * k
      invariant c[..] == RunDenseCalls(c0, a, n, i, ix, bj, j, vk, k, left)
    {
      if a[ix + j] != 0.0 {
        var cix := if left then vix else uix;
        if left { RowFits(j, n, k); }
        assert CallOf(Entry(i, j, ix + j, a[ix + j]), k, left) == KernelCall(a[ix + j], uix, vix, cix, i, j);
        GenexecDense(vk, KernelCall(a[ix + j], uix, vix, cix, i, j), c, k);
      }
      MulSucc(j, k);
      j, vix := j + 1, vix + k;
    }
  }

  /** executeCellwiseDense: for every visit, evaluate the scalar kernel with
      the cell's value, U offset i*k and V offset j*k; in Cellwise mode store
      the result at the cell's own position i*n+j, in every other mode add it
      to c[0]. */
  method ExecuteCellwiseDense(a: seq<real>, f: CellKernel, c: array<real>, n: int, m: int, k: int,
                              outType: OutProdType, rl: int, ru: int, cl: int, cu: int)
    requires 0 <= m && 0 <= n && 0 <= k && |a| == m * n
    requires 0 <= rl && ru <= m && 0 <= cl && cu <= n
    requires outType == CellwiseOuterProduct ==> PositionsBelow(DenseEntries(a, m, n, rl, ru, cl, cu), c.Length)
    requires outType != CellwiseOuterProduct ==> c.Length > 0
    modifies c
    ensures c[..] == ApplyCells(old(c[..]), DenseEntries(a, m, n, rl, ru, cl, cu), f, k, outType == CellwiseOuterProduct)
  {
    var cellwise := outType == CellwiseOuterProduct;
    if cellwise {
      CellsBelowAll(a, m, n, rl, ru, cl, cu, c.Length);
    }
    ghost var c0 := c[..];
    var bs := BlocksizeIJ;
    DenseCellBlocks(a, f, c, n, m, k, cellwise, rl, ru, cl, cu, bs);
    RunTiledCellsSpec(c0, DenseGuide(a, m, n), rl, ru, cl, cu, bs, bs, f, k, cellwise);
  }

  /** The row-block loop of executeCellwiseDense, with block size bs. */
  method DenseCellBlocks(a: seq<real>, f: CellKernel, c: array<real>, n: int, m: int, k: int, cellwise: bool,
                         rl: int, ru: int, cl: int, cu: int, bs: int)
    requires 0 <= m && 0 <= n && 0 <= k && |a| == m * n
    requires 0 <= rl && ru <= m && 0 <= cl && cu <= n && 0 < bs
    requires cellwise ==> CellsBelow(a, m, n, rl, ru, cl, cu, c.Length)
    requires !cellwise ==> c.Length > 0
    modifies c
    ensures c[..] == RunTiledCells(old(c[..]), DenseGuide(a, m, n), rl, ru, cl, cu, bs, bs, f, k, cellwise)
  {
    ghost var g := DenseGuide(a, m, n);
    ghost var goal := RunTiledCells(c[..], g, rl, ru, cl, cu, bs, bs, f, k, cellwise);
    var bi := rl;
    while bi < ru
      invariant rl <= bi
      invariant RunTiledCells(c[..], g, bi, ru, cl, cu, bs, bs, f, k, cellwise) == goal
      decreases ru - bi
    {
      var bimin := Min(ru, bi + bs);
      DenseCellBand(a, f, c, n, m, k, cellwise, rl, ru, cl, cu, bi, bimin, bs);
      bi := bi + bs;
    }
  }

  /** The column-block loop of executeCellwiseDense over the row block
      [bi, bimin) of the range [rl, ru) x [cl, cu). */
  method DenseCellBand(a: seq<real>, f: CellKernel, c: array<real>, n: int, m: int, k: int, cellwise: bool,
                       ghost rl: int, ghost ru: int, cl: int, cu: int, bi: int, bimin: int, bs: int)
    requires 0 <= m && 0 <= n && 0 <= k && |a| == m * n
    requires 0 <= rl <= bi <= bimin <= ru <= m && 0 <= cl && cu <= n && 0 < bs
    requires cellwise ==> CellsBelow(a, m, n, rl, ru, cl, cu, c.Length)
    requires !cellwise ==> c.Length > 0
    modifies c
    ensures c[..] == RunBandCells(old(c[..]), DenseGuide(a, m, n), bi, bimin, cl, cu, bs, f, k, cellwise)
  {
    ghost var g := DenseGuide(a, m, n);
    ghost var goal := RunBandCells(c[..], g, bi, bimin, cl, cu, bs, f, k, cellwise);
    var bj := cl;
    while bj < cu
      invariant cl <= bj
      invariant RunBandCells(c[..], g, bi, bimin, bj, cu, bs, f, k, cellwise) == goal
      decreases cu - bj
    {
      var bjmin := Min(cu, bj + bs);
      DenseCellTile(a, f, c, n, m, k, cellwise, rl, ru, cl, cu, bi, bimin, bj, bjmin);
      bj := bj + bs;
    }
  }

  /** The two inner loops of executeCellwiseDense: the rows [bi, bimin) of
      the tile whose column range is [bj, bjmin). */
  method DenseCellTile(a: seq<real>, f: CellKernel, c: array<real>, n: int, m: int, k: int, cellwise: bool,
                       ghost rl: int, ghost ru: int, ghost cl: int, ghost cu: int,
                       bi: int, bimin: int, bj: int, bjmin: int)
    requires 0 <= m && 0 <= n && 0 <= k && |a| == m * n
    requires 0 <= rl <= bi <= bimin <= ru <= m && 0 <= cl <= bj <= bjmin <= cu <= n
    requires cellwise ==> CellsBelow(a, m, n, rl, ru, cl, cu, c.Length)
    requires !cellwise ==> c.Length > 0
    modifies c
    ensures c[..] == RunTileCells(old(c[..]), DenseGuide(a, m, n), bi, bimin, bj, bjmin, f, k, cellwise)
  {
    ghost var g := DenseGuide(a, m, n);
    ghost var s0 := c[..];
    var i, ix, uix := bi, bi * n, bi * k;
    while i < bimin
      invariant bi <= i <= bimin && ix == i * n && uix == i * k
      invariant c[..] == RunTileCells(s0, g, bi, i, bj, bjmin, f, k, cellwise)
    {
      DenseCellRow(a, f, c, n, m, k, cellwise, rl, ru, cl, cu, i, ix, uix, bj, bjmin);
      MulSucc(i, n);
      MulSucc(i, k);
      i, ix, uix := i + 1, ix + n, uix + k;
    }
  }

  /** The innermost loop of executeCellwiseDense: row i of one tile, columns
      [bj, bjmin). */
  method DenseCellRow(a: seq<real>, f: CellKernel, c: array<real>, n: int, m: int, k: int, cellwise: bool,
                      ghost rl: int, ghost ru: int, ghost cl: int, ghost cu: int,
                      i: int, ix: int, uix: int, bj: int, bjmin: int)
    requires 0 <= i < m && 0 <= n && 0 <= k && |a| == m * n
    requires 0 <= rl <= i < ru <= m && 0 <= cl <= bj <= bjmin <= cu <= n
    requires ix == i * n && uix == i * k
    requires cellwise ==> CellsBelow(a, m, n, rl, ru, cl, cu, c.Length)
    requires !cellwise ==> c.Length > 0
    modifies c
    ensures c[..] == RunDenseCells(old(c[..]), a, n, i, ix, bj, bjmin, f, k, cellwise)
  {
    ghost var c0 := c[..];
    RowFits(i, m, n);
    var j, vix := bj, bj * k;
    while j < bjmin
      invariant bj <= j <= bjmin && vix == j * k
      invariant c[..] == RunDenseCells(c0, a, n, i, ix, bj, j, f, k, cellwise)
    {
      if a[ix + j] != 0.0 {
        DenseCellWrite(a, f, c, n, m, k, cellwise, rl, ru, cl, cu, Entry(i, j, ix + j, a[ix + j]), uix, vix);
      }
      MulSucc(j, k);
      j, vix := j + 1, vix + k;
    }
  }

  /** The body of the innermost loop for one non-zero cell: evaluate the
      scalar kernel, then `c[ix+j] = value` (Cellwise) or `c[0] += value`. */
  method DenseCellWrite(a: seq<real>, f: CellKernel, c: array<real>, n: int, m: int, k: int, cellwise: bool,
                        ghost rl: int, ghost ru: int, ghost cl: int, ghost cu: int,
                        e: Entry, uix: int, vix: int)
    requires rl <= e.row < ru && cl <= e.col < cu && IsDenseVisit(a, m, n, e)
    requires uix == e.row * k && vix == e.col * k
    requires cellwise ==> CellsBelow(a, m, n, rl, ru, cl, cu, c.Length)
    requires !cellwise ==> c.Length > 0
    modifies c
    ensures c[..] == ApplyCell(old(c[..]), e, f, k, cellwise)
  {
    var v := f(e.val, uix, vix, e.row, e.col);
    if cellwise {
      c[e.pos] := v;
    } else {
      c[0] := c[0] + v;
    }
  }

  /** Every non-zero cell of [rl, ru) x [cl, cu) has its storage position
      inside a buffer of length len. */
  ghost predicate CellsBelow(a: seq<real>, m: int, n: int, rl: int, ru: int, cl: int, cu: int, len: int)
  {
    forall e: Entry :: rl <= e.row < ru && cl <= e.col < cu && IsDenseVisit(a, m, n, e) ==> 0 <= e.pos < len
  }

  /** A buffer that holds the positions of all visits of the range holds
      the position of every non-zero cell of the range. */
  lemma CellsBelowAll(a: seq<real>, m: int, n: int, rl: int, ru: int, cl: int, cu: int, len: int)
    requires PositionsBelow(DenseEntries(a, m, n, rl, ru, cl, cu), len)
    ensures CellsBelow(a, m, n, rl, ru, cl, cu, len)
  {
    DenseVisits(a, m, n, rl, ru, cl, cu);
    forall e: Entry | rl <= e.row < ru && cl <= e.col < cu && IsDenseVisit(a, m, n, e) ensures 0 <= e.pos < len {
      PositionsBelowMember(DenseEntries(a, m, n, rl, ru, cl, cu), len, e);
    }
  }
}
